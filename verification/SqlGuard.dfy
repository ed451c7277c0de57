/**
 The read-only statement gate (internal/sqlguard/sqlguard.go).

 Statements are sequences of Unicode characters, as after Go's []rune(stmt).
 `Scan` is the specification of the one-pass scanner, written on suffixes; the
 method `ScanStatement` is the index loop of the source, proved equal to it.
 */
module SqlGuard {
  import opened Common

  datatype Rejection =
    | UnterminatedLiteral
    | ExecutableComment
    | UnterminatedComment
    | EmptyStatement
    | SecondStatement
    | NoVerb
    | NotReadOnly(verb: string)
    | WritesServerFile

  /** The executable text and the same text with literal contents blanked. */
  datatype Scanned = Scanned(code: string, mask: string)

  /** The Unicode tables behind unicode.IsLetter and strings.ToUpper. */
  datatype Unicode = Unicode(isLetter: char -> bool, toUpper: char -> char)

  predicate IsSpace(c: char) {
    c == ' ' || c == '\t' || c == '\n' || c == '\r' || c == '\U{000C}' || c == '\U{000B}'
  }

  predicate IsQuote(c: char) {
    c == '\'' || c == '"' || c == '`'
  }

  // ---------------------------------------------------------------- scanning

  function Plus(k: nat, n: Option<nat>): Option<nat> {
    match n case None => None case Some(v) => Some(k + v)
  }

  /** How many characters a literal takes after its opening quote `q`, closing
      quote included; None when it never closes. */
  function BodyLen(s: string, q: char): (n: Option<nat>)
    ensures n.Some? ==> 1 <= n.value <= |s|
  {
    if s == [] then None
    else if s[0] == '\\' && q != '`' && |s| > 1 then Plus(2, BodyLen(s[2..], q))
    else if s[0] == q then
      if |s| > 1 && s[1] == q then Plus(2, BodyLen(s[2..], q)) else Some(1)
    else Plus(1, BodyLen(s[1..], q))
  }

  function Blank(n: nat): string {
    seq(n, _ => ' ')
  }

  /** The mask of a literal whose body (closing quote included) has length `n`. */
  function MaskLiteral(q: char, n: nat): string
    requires n >= 1
  {
    [q] + Blank(n - 1) + [q]
  }

  predicate StartsDashComment(s: string) {
    |s| >= 2 && s[0] == '-' && s[1] == '-' && (|s| == 2 || IsSpace(s[2]))
  }

  predicate StartsLineComment(s: string) {
    s != [] && (s[0] == '#' || StartsDashComment(s))
  }

  predicate StartsBlockComment(s: string) {
    |s| >= 2 && s[0] == '/' && s[1] == '*'
  }

  /** Characters before the first newline. */
  function LineLen(s: string): (n: nat)
    ensures n <= |s|
    ensures n < |s| ==> s[n] == '\n'
    ensures StartsLineComment(s) ==> n > 0
  {
    if s == [] || s[0] == '\n' then 0 else 1 + LineLen(s[1..])
  }

  /** Characters before the first "*" followed by "/", or None. */
  function BlockLen(s: string): (n: Option<nat>)
    ensures n.Some? ==> n.value + 2 <= |s|
  {
    if |s| < 2 then None
    else if s[0] == '*' && s[1] == '/' then Some(0)
    else Plus(1, BlockLen(s[1..]))
  }

  function Prepend(code: string, mask: string, r: Result<Scanned, Rejection>): Result<Scanned, Rejection> {
    match r
    case Err(e) => Err(e)
    case Ok(t) => Ok(Scanned(code + t.code, mask + t.mask))
  }

  function Scan(s: string): Result<Scanned, Rejection>
    decreases |s|
  {
    if s == [] then Ok(Scanned([], []))
    else if IsQuote(s[0]) then
      match BodyLen(s[1..], s[0])
      case None => Err(UnterminatedLiteral)
      case Some(n) => Prepend(s[..n + 1], MaskLiteral(s[0], n), Scan(s[n + 1..]))
    else if StartsLineComment(s) then Scan(s[LineLen(s)..])
    else if StartsBlockComment(s) then
      if |s| > 2 && s[2] == '!' then Err(ExecutableComment)
      else
        match BlockLen(s[2..])
        case None => Err(UnterminatedComment)
        case Some(n) => Prepend(" ", " ", Scan(s[n + 4..]))
    else Prepend([s[0]], [s[0]], Scan(s[1..]))
  }

  lemma PrependPrepend(c1: string, m1: string, c2: string, m2: string, r: Result<Scanned, Rejection>)
    ensures Prepend(c1, m1, Prepend(c2, m2, r)) == Prepend(c1 + c2, m1 + m2, r)
  {
    if r.Ok? {
      assert c1 + (c2 + r.value.code) == (c1 + c2) + r.value.code;
      assert m1 + (m2 + r.value.mask) == (m1 + m2) + r.value.mask;
    }
  }

  lemma PrependNothing(r: Result<Scanned, Rejection>)
    ensures Prepend([], [], r) == r
  {
    if r.Ok? {
      assert [] + r.value.code == r.value.code && [] + r.value.mask == r.value.mask;
    }
  }

  /** How far one pass of the inner loop moves along a literal's body; 0 at its end. */
  function BodyToken(src: string, i: nat, q: char): (k: nat)
    requires i < |src|
    ensures i + k <= |src|
  {
    if src[i] == '\\' && q != '`' && i + 1 < |src| then 2
    else if src[i] != q then 1
    else if i + 1 < |src| && src[i + 1] == q then 2
    else 0
  }

  lemma BodyStep(src: string, i: nat, q: char)
    requires i < |src| && q != '\\'
    ensures var k := BodyToken(src, i, q);
            BodyLen(src[i..], q) == if k == 0 then Some(1) else Plus(k, BodyLen(src[i + k..], q))
  {
    var s := src[i..];
    var k := BodyToken(src, i, q);
    assert s[k..] == src[i + k..];
  }

  /** What the inner loop has emitted at `i`: the text copied, and blanked. */
  ghost predicate Emitted(src: string, open: nat, i: nat, t: Scanned) {
    open < i <= |src| && t.code == src[open..i] && t.mask == [src[open]] + Blank(i - open - 1)
  }

  /** A literal opened at `open` has a body of extent `total`, and `i` lies inside it. */
  ghost predicate BodyLeft(src: string, open: nat, i: nat, total: Option<nat>) {
    open < i <= |src| && total == Plus(i - open - 1, BodyLen(src[i..], src[open]))
  }

  lemma EmittedStarts(src: string, open: nat)
    requires open < |src|
    ensures Emitted(src, open, open + 1, Scanned([src[open]], [src[open]]))
  {
    assert [src[open]] + Blank(0) == [src[open]];
  }

  lemma EmittedGrows(src: string, open: nat, i: nat, k: nat, t: Scanned)
    requires Emitted(src, open, i, t) && i + k <= |src|
    ensures Emitted(src, open, i + k, Scanned(t.code + src[i..i + k], t.mask + Blank(k)))
  {
    assert src[open..i] + src[i..i + k] == src[open..i + k];
    assert Blank(i - open - 1) + Blank(k) == Blank(i + k - open - 1);
  }

  lemma EmittedEnds(src: string, open: nat, i: nat, t: Scanned)
    requires Emitted(src, open, i, t) && i < |src| && src[i] == src[open]
    ensures t.code + [src[i]] == src[open..i + 1]
    ensures t.mask + [src[i]] == MaskLiteral(src[open], i - open)
  {
  }

  lemma BodyLeftMoves(src: string, open: nat, i: nat, total: Option<nat>)
    requires BodyLeft(src, open, i, total) && i < |src| && IsQuote(src[open])
    ensures var k := BodyToken(src, i, src[open]);
            if k == 0 then total == Some(i - open) else BodyLeft(src, open, i + k, total)
  {
    BodyStep(src, i, src[open]);
  }

  /** The inner loop's state at `i`. */
  ghost predicate InLiteral(src: string, open: nat, i: nat, t: Scanned) {
    Emitted(src, open, i, t) && BodyLeft(src, open, i, BodyLen(src[open + 1..], src[open]))
  }

  /** The literal opened at `open` ends before `end`, and `t` is its text and mask. */
  ghost predicate IsLiteral(src: string, open: nat, end: nat, t: Scanned) {
    && open + 1 < end <= |src| && BodyLen(src[open + 1..], src[open]) == Some(end - open - 1)
    && t == Scanned(src[open..end], MaskLiteral(src[open], end - open - 1))
  }

  lemma LiteralStarts(src: string, open: nat)
    requires open < |src|
    ensures InLiteral(src, open, open + 1, Scanned([src[open]], [src[open]]))
  {
    EmittedStarts(src, open);
  }

  lemma LiteralMoves(src: string, open: nat, i: nat, t: Scanned)
    requires open < |src| && IsQuote(src[open]) && InLiteral(src, open, i, t) && i < |src|
    ensures var k := BodyToken(src, i, src[open]);
            if k == 0 then IsLiteral(src, open, i + 1, Scanned(t.code + [src[i]], t.mask + [src[i]]))
            else InLiteral(src, open, i + k, Scanned(t.code + src[i..i + k], t.mask + Blank(k)))
  {
    var k := BodyToken(src, i, src[open]);
    BodyLeftMoves(src, open, i, BodyLen(src[open + 1..], src[open]));
    if k == 0 {
      EmittedEnds(src, open, i, t);
    } else {
      EmittedGrows(src, open, i, k, t);
    }
  }

  lemma LiteralOpen(src: string, open: nat, t: Scanned)
    requires open < |src| && InLiteral(src, open, |src|, t)
    ensures BodyLen(src[open + 1..], src[open]).None?
  {
  }

  /** The inner loop of scan: the body of one literal opened at `open`. */
  method ScanLiteral(src: string, open: nat) returns (end: nat, t: Scanned, closed: bool)
    requires open < |src| && IsQuote(src[open])
    ensures closed ==> IsLiteral(src, open, end, t)
    ensures !closed ==> BodyLen(src[open + 1..], src[open]).None?
  {
    var i := open + 1;
    t := Scanned([src[open]], [src[open]]);
    LiteralStarts(src, open);
    while i < |src|
      invariant InLiteral(src, open, i, t)
    {
      LiteralMoves(src, open, i, t);
      var k := BodyToken(src, i, src[open]);
      if k == 0 {
        return i + 1, Scanned(t.code + [src[i]], t.mask + [src[i]]), true;
      }
      t := Scanned(t.code + src[i..i + k], t.mask + Blank(k));
      i := i + k;
    }
    LiteralOpen(src, open, t);
    return i, t, false;
  }

  method SkipLineComment(src: string, i: nat) returns (j: nat)
    requires i <= |src|
    ensures j <= |src| && j == i + LineLen(src[i..])
  {
    j := i;
    while j < |src| && src[j] != '\n'
      invariant i <= j <= |src|
      invariant LineLen(src[i..]) == j - i + LineLen(src[j..])
    {
      assert src[j..][1..] == src[j + 1..];
      j := j + 1;
    }
  }

  /** Looks for the end of a block comment whose text starts at `i`. */
  method SkipBlockComment(src: string, i: nat) returns (j: nat, found: bool)
    requires i <= |src|
    ensures found <==> BlockLen(src[i..]).Some?
    ensures found ==> j == i + BlockLen(src[i..]).value && j + 2 <= |src|
  {
    j := i;
    while j + 1 < |src| && !(src[j] == '*' && src[j + 1] == '/')
      invariant i <= j <= |src|
      invariant BlockLen(src[i..]) == Plus(j - i, BlockLen(src[j..]))
    {
      DropDrops(src, j, 1);
      j := j + 1;
    }
    found := j + 1 < |src|;
  }

  /** The token a text starts with, and how long it is. */
  function Token(s: string): (r: (Result<Scanned, Rejection>, nat))
    requires s != []
    ensures r.0.Ok? ==> 0 < r.1 <= |s|
  {
    if IsQuote(s[0]) then
      match BodyLen(s[1..], s[0])
      case None => (Err(UnterminatedLiteral), 0)
      case Some(n) => (Ok(Scanned(s[..n + 1], MaskLiteral(s[0], n))), n + 1)
    else if StartsLineComment(s) then (Ok(Scanned([], [])), LineLen(s))
    else if StartsBlockComment(s) then
      if |s| > 2 && s[2] == '!' then (Err(ExecutableComment), 0)
      else
        match BlockLen(s[2..])
        case None => (Err(UnterminatedComment), 0)
        case Some(n) => (Ok(Scanned(" ", " ")), n + 4)
    else (Ok(Scanned([s[0]], [s[0]])), 1)
  }

  lemma ScanByToken(s: string)
    requires s != []
    ensures Scan(s) == match Token(s).0 case Err(e) => Err(e) case Ok(t) => Prepend(t.code, t.mask, Scan(s[Token(s).1..]))
  {
    if !IsQuote(s[0]) && StartsLineComment(s) {
      PrependNothing(Scan(s[LineLen(s)..]));
    }
  }

  /** What one pass of the scanner's loop does at `i`: fail, or emit and move on. */
  ghost predicate TokenAt(src: string, i: nat, r: Result<Scanned, Rejection>, next: nat) {
    i < |src| && Token(src[i..]).0 == r && (r.Ok? ==> next == i + Token(src[i..]).1)
  }

  lemma ScanMovesOn(src: string, i: nat, t: Scanned, n: nat)
    requires i < |src| && Token(src[i..]) == (Ok(t), n)
    ensures i + n <= |src| && Scan(src[i..]) == Prepend(t.code, t.mask, Scan(src[i + n..]))
  {
    ScanByToken(src[i..]);
    DropDrops(src, i, n);
  }

  lemma ScanFails(src: string, i: nat, e: Rejection)
    requires i < |src| && Token(src[i..]).0 == Err(e)
    ensures Scan(src[i..]) == Err(e)
  {
    ScanByToken(src[i..]);
  }

  lemma ScanMoves(src: string, i: nat, r: Result<Scanned, Rejection>, next: nat)
    requires TokenAt(src, i, r, next)
    ensures r.Err? ==> Scan(src[i..]) == Err(r.error)
    ensures r.Ok? ==> i < next <= |src| && Scan(src[i..]) == Prepend(r.value.code, r.value.mask, Scan(src[next..]))
  {
    if r.Ok? {
      ScanMovesOn(src, i, r.value, Token(src[i..]).1);
    } else {
      ScanFails(src, i, r.error);
    }
  }

  lemma ScanClosedLiteral(s: string, n: nat)
    requires s != [] && IsQuote(s[0]) && BodyLen(s[1..], s[0]) == Some(n)
    ensures Scan(s) == Prepend(s[..n + 1], MaskLiteral(s[0], n), Scan(s[n + 1..]))
  {
    ScanByToken(s);
  }

  lemma LiteralToken(src: string, i: nat, end: nat, t: Scanned)
    requires i < |src| && IsQuote(src[i]) && IsLiteral(src, i, end, t)
    ensures TokenAt(src, i, Ok(t), end)
  {
    DropDrops(src, i, 1);
    assert src[i..][..end - i] == src[i..end];
  }

  lemma UnclosedToken(src: string, i: nat)
    requires i < |src| && IsQuote(src[i]) && BodyLen(src[i + 1..], src[i]).None?
    ensures TokenAt(src, i, Err(UnterminatedLiteral), i)
  {
    DropDrops(src, i, 1);
  }

  /** The literal branch of the scanner's switch. */
  method ScanQuoted(src: string, i: nat) returns (r: Result<Scanned, Rejection>, next: nat)
    requires i < |src| && IsQuote(src[i])
    ensures TokenAt(src, i, r, next)
  {
    var end, t, closed := ScanLiteral(src, i);
    if closed {
      LiteralToken(src, i, end, t);
      r, next := Ok(t), end;
    } else {
      UnclosedToken(src, i);
      r, next := Err(UnterminatedLiteral), i;
    }
  }

  lemma ScanAtLineComment(src: string, i: nat)
    requires i < |src| && !IsQuote(src[i]) && StartsLineComment(src[i..])
    ensures TokenAt(src, i, Ok(Scanned([], [])), i + LineLen(src[i..]))
  {
  }

  ghost predicate BlockCommentAt(src: string, i: nat) {
    i < |src| && StartsBlockComment(src[i..])
  }

  lemma ScanAtExecutableComment(src: string, i: nat)
    requires BlockCommentAt(src, i) && i + 2 < |src| && src[i + 2] == '!'
    ensures TokenAt(src, i, Err(ExecutableComment), i)
  {
    var s := src[i..];
    assert s[2] == '!';
  }

  lemma ScanAtUnclosedComment(src: string, i: nat)
    requires BlockCommentAt(src, i) && !(i + 2 < |src| && src[i + 2] == '!')
    requires BlockLen(src[i + 2..]).None?
    ensures TokenAt(src, i, Err(UnterminatedComment), i)
  {
    var s := src[i..];
    DropDrops(src, i, 2);
    assert |s| > 2 ==> s[2] == src[i + 2];
  }

  lemma ScanAtClosedComment(src: string, i: nat, n: nat)
    requires BlockCommentAt(src, i) && !(i + 2 < |src| && src[i + 2] == '!')
    requires BlockLen(src[i + 2..]) == Some(n)
    ensures TokenAt(src, i, Ok(Scanned(" ", " ")), i + 2 + n + 2)
  {
    var s := src[i..];
    DropDrops(src, i, 2);
    assert |s| > 2 ==> s[2] == src[i + 2];
  }

  lemma ScanAtOther(src: string, i: nat)
    requires i < |src| && !IsQuote(src[i]) && !StartsLineComment(src[i..]) && !StartsBlockComment(src[i..])
    ensures TokenAt(src, i, Ok(Scanned([src[i]], [src[i]])), i + 1)
  {
  }

  /** The other branches: comments and ordinary characters. */
  method ScanUnquoted(src: string, i: nat) returns (r: Result<Scanned, Rejection>, next: nat)
    requires i < |src| && !IsQuote(src[i])
    ensures TokenAt(src, i, r, next)
  {
    var c := src[i];
    if (c == '-' && i + 1 < |src| && src[i + 1] == '-' && (i + 2 >= |src| || IsSpace(src[i + 2]))) || c == '#' {
      ScanAtLineComment(src, i);
      next := SkipLineComment(src, i);
      r := Ok(Scanned([], []));
    } else if c == '/' && i + 1 < |src| && src[i + 1] == '*' {
      r, next := ScanBlock(src, i);
    } else {
      ScanAtOther(src, i);
      r, next := Ok(Scanned([c], [c])), i + 1;
    }
  }

  method ScanBlock(src: string, i: nat) returns (r: Result<Scanned, Rejection>, next: nat)
    requires BlockCommentAt(src, i)
    ensures TokenAt(src, i, r, next)
  {
    if i + 2 < |src| && src[i + 2] == '!' {
      ScanAtExecutableComment(src, i);
      return Err(ExecutableComment), i;
    }
    var j, found := SkipBlockComment(src, i + 2);
    if found {
      ScanAtClosedComment(src, i, j - (i + 2));
      r, next := Ok(Scanned(" ", " ")), j + 2;
    } else {
      ScanAtUnclosedComment(src, i);
      r, next := Err(UnterminatedComment), i;
    }
  }

  /** The scanner as the source runs it: one index, two growing slices. */
  method ScanStatement(src: string) returns (r: Result<Scanned, Rejection>)
    ensures r == Scan(src)
  {
    var code, mask := [], [];
    var i := 0;
    PrependNothing(Scan(src));
    assert src[0..] == src;
    while i < |src|
      invariant 0 <= i <= |src|
      invariant Scan(src) == Prepend(code, mask, Scan(src[i..]))
    {
      var token, next;
      if src[i] == '\'' || src[i] == '"' || src[i] == '`' {
        token, next := ScanQuoted(src, i);
      } else {
        token, next := ScanUnquoted(src, i);
      }
      ScanMoves(src, i, token, next);
      if token.Err? {
        return Err(token.error);
      }
      PrependPrepend(code, mask, token.value.code, token.value.mask, Scan(src[next..]));
      code, mask, i := code + token.value.code, mask + token.value.mask, next;
    }
    assert code + [] == code && mask + [] == mask;
    r := Ok(Scanned(code, mask));
  }

  // --------------------------------------- alignment of code and mask

  /**
   `m` is `c` with exactly the contents of its (closed) literals blanked, and no
   "#" or block comment starts outside a literal of `c`.
   */
  ghost predicate Aligned(c: string, m: string)
    decreases |c|
  {
    if c == [] then m == []
    else if IsQuote(c[0]) then
      match BodyLen(c[1..], c[0])
      case None => false
      case Some(n) => n + 1 <= |m| && m[..n + 1] == MaskLiteral(c[0], n) && Aligned(c[n + 1..], m[n + 1..])
    else
      m != [] && m[0] == c[0] && c[0] != '#' && !StartsBlockComment(c) && Aligned(c[1..], m[1..])
  }

  /** A "--" outside literals that a second scan would take for a comment. */
  predicate DashCommentAt(m: string, k: nat) {
    k + 1 < |m| && m[k] == '-' && m[k + 1] == '-' && (k + 2 == |m| || IsSpace(m[k + 2]))
  }

  predicate NoDashComment(m: string) {
    forall k: nat | k < |m| :: !DashCommentAt(m, k)
  }

  lemma {:induction false} AlignedLength(c: string, m: string)
    requires Aligned(c, m)
    ensures |c| == |m|
    decreases |c|
  {
    if c != [] {
      if IsQuote(c[0]) {
        var n := BodyLen(c[1..], c[0]).value;
        AlignedLength(c[n + 1..], m[n + 1..]);
      } else {
        AlignedLength(c[1..], m[1..]);
      }
    }
  }

  lemma AlignedHead(c: string, m: string)
    requires Aligned(c, m) && c != []
    ensures m != [] && m[0] == c[0]
  {
    if IsQuote(c[0]) {
      assert m[0] == m[..BodyLen(c[1..], c[0]).value + 1][0];
    }
  }

  /** A literal's extent depends on what follows it only through the next character. */
  lemma {:induction false} BodyLenLocal(a: string, b: string, b': string, q: char)
    requires IsQuote(q)
    requires BodyLen(a + b, q) == Some(|a|)
    requires b' == [] || b'[0] != q
    ensures b == [] || b[0] != q
    ensures BodyLen(a + b', q) == Some(|a|)
    decreases |a|, 1
  {
    var s, s' := a + b, a + b';
    assert s[0] == a[0] == s'[0];
    if s[0] == '\\' && q != '`' && |s| > 1 {
      BodyLenLocalTail(a, b, b', q, 2);
    } else if s[0] == q {
      if |s| > 1 && s[1] == q {
        assert |a| >= 3;
        assert s'[1] == a[1] == s[1];
        BodyLenLocalTail(a, b, b', q, 2);
      }
    } else {
      BodyLenLocalTail(a, b, b', q, 1);
    }
  }

  lemma {:induction false} BodyLenLocalTail(a: string, b: string, b': string, q: char, k: nat)
    requires IsQuote(q) && 0 < k < |a|
    requires BodyLen((a + b)[k..], q) == Some(|a| - k)
    requires b' == [] || b'[0] != q
    ensures b == [] || b[0] != q
    ensures BodyLen((a + b')[k..], q) == Some(|a| - k)
    decreases |a|, 0
  {
    ConcatDrops(a, b, k);
    ConcatDrops(a, b', k);
    BodyLenLocal(a[k..], b, b', q);
  }

  lemma AlignedLiteral(q: char, body: string, c: string, m: string)
    requires IsQuote(q) && body != [] && BodyLen(body + c, q) == Some(|body|)
    requires Aligned(c, m)
    ensures Aligned([q] + body + c, MaskLiteral(q, |body|) + m)
  {
    var n := |body|;
    var code, mask := [q] + body + c, MaskLiteral(q, n) + m;
    assert code[1..] == body + c;
    assert code[n + 1..] == c;
    assert mask[n + 1..] == m;
    assert mask[..n + 1] == MaskLiteral(q, n);
  }

  lemma AlignedChar(x: char, c: string, m: string)
    requires !IsQuote(x) && x != '#' && !(x == '/' && c != [] && c[0] == '*')
    requires Aligned(c, m)
    ensures Aligned([x] + c, [x] + m)
  {
    assert ([x] + c)[1..] == c && ([x] + m)[1..] == m;
  }

  lemma LiteralAligned(s: string, n: nat, t: Scanned)
    requires s != [] && IsQuote(s[0]) && BodyLen(s[1..], s[0]) == Some(n)
    requires Aligned(t.code, t.mask)
    requires t.code != [] ==> n + 1 < |s| && (t.code[0] == s[n + 1] || IsSpace(t.code[0]))
    ensures Aligned(s[..n + 1] + t.code, MaskLiteral(s[0], n) + t.mask)
  {
    var q, body, rest := s[0], s[1..n + 1], s[n + 1..];
    assert s[1..] == body + rest;
    BodyLenLocal(body, rest, [], q);
    BodyLenLocal(body, rest, t.code, q);
    AlignedLiteral(q, body, t.code, t.mask);
    assert s[..n + 1] == [q] + body;
  }

  lemma {:induction false} ScanNeverLonger(s: string)
    requires Scan(s).Ok?
    ensures |Scan(s).value.code| <= |s|
    decreases |s|
  {
    if s == [] {
    } else if IsQuote(s[0]) {
      ScanNeverLonger(s[BodyLen(s[1..], s[0]).value + 1..]);
    } else if StartsLineComment(s) {
      ScanNeverLonger(s[LineLen(s)..]);
    } else if StartsBlockComment(s) {
      ScanNeverLonger(s[BlockLen(s[2..]).value + 4..]);
    } else {
      ScanNeverLonger(s[1..]);
    }
  }

  /** Scanning keeps code and mask aligned, and only ever starts its output with
      the input's first character or with whitespace. */
  lemma {:induction false} ScanAligned(s: string)
    requires Scan(s).Ok?
    ensures var t := Scan(s).value; Aligned(t.code, t.mask)
    ensures var t := Scan(s).value; t.code != [] ==> s != [] && (t.code[0] == s[0] || IsSpace(t.code[0]))
    decreases |s|
  {
    if s == [] {
    } else if IsQuote(s[0]) {
      var n := BodyLen(s[1..], s[0]).value;
      var rest := s[n + 1..];
      ScanAligned(rest);
      LiteralAligned(s, n, Scan(rest).value);
    } else if StartsLineComment(s) {
      ScanAligned(s[LineLen(s)..]);
    } else if StartsBlockComment(s) {
      var rest := s[BlockLen(s[2..]).value + 4..];
      ScanAligned(rest);
      AlignedChar(' ', Scan(rest).value.code, Scan(rest).value.mask);
    } else {
      ScanAligned(s[1..]);
      AlignedChar(s[0], Scan(s[1..]).value.code, Scan(s[1..]).value.mask);
    }
  }

  lemma NoDashAfter(pre: string, m: string)
    requires '-' !in pre
    ensures NoDashComment(pre + m) <==> NoDashComment(m)
  {
    var n := |pre|;
    forall k: nat | k < n ensures !DashCommentAt(pre + m, k) {
      assert (pre + m)[k] == pre[k];
    }
    forall k: nat | n <= k < n + |m| && DashCommentAt(pre + m, k) ensures DashCommentAt(m, k - n) {
    }
    forall k: nat | k < |m| && DashCommentAt(m, k) ensures DashCommentAt(pre + m, k + n) {
    }
  }

  lemma NoDashCons(x: char, m: string)
    ensures NoDashComment([x] + m) <==> !DashCommentAt([x] + m, 0) && NoDashComment(m)
  {
    forall k: nat | 0 < k <= |m| && DashCommentAt([x] + m, k) ensures DashCommentAt(m, k - 1) {
    }
    forall k: nat | k < |m| && DashCommentAt(m, k) ensures DashCommentAt([x] + m, k + 1) {
    }
  }

  ghost predicate ScansToItselfIffNoDash(c: string, m: string) {
    if NoDashComment(m) then Scan(c) == Ok(Scanned(c, m)) else Scan(c).Err? || |Scan(c).value.code| < |c|
  }

  /** An aligned pair scans to itself exactly when its mask holds no "--" that a
      scan would take for a comment; otherwise scanning makes it shorter or fails. */
  lemma {:induction false} ScanFixpoint(c: string, m: string)
    requires Aligned(c, m)
    ensures ScansToItselfIffNoDash(c, m)
    decreases |c|
  {
    if c == [] {
    } else if IsQuote(c[0]) {
      var n := BodyLen(c[1..], c[0]).value;
      ScanFixpoint(c[n + 1..], m[n + 1..]);
      FixpointAtLiteral(c, m, n);
    } else {
      ScanFixpoint(c[1..], m[1..]);
      FixpointAtChar(c, m);
    }
  }

  lemma FixpointAtLiteral(c: string, m: string, n: nat)
    requires c != [] && IsQuote(c[0]) && BodyLen(c[1..], c[0]) == Some(n)
    requires n + 1 <= |m| && m[..n + 1] == MaskLiteral(c[0], n) && ScansToItselfIffNoDash(c[n + 1..], m[n + 1..])
    ensures ScansToItselfIffNoDash(c, m)
  {
    var c', m' := c[n + 1..], m[n + 1..];
    assert c == c[..n + 1] + c' && m == MaskLiteral(c[0], n) + m';
    NoDashAfter(MaskLiteral(c[0], n), m');
    assert Scan(c) == Prepend(c[..n + 1], MaskLiteral(c[0], n), Scan(c'));
  }

  lemma FixpointAtChar(c: string, m: string)
    requires Aligned(c, m) && c != [] && !IsQuote(c[0]) && ScansToItselfIffNoDash(c[1..], m[1..])
    ensures ScansToItselfIffNoDash(c, m)
  {
    var c', m' := c[1..], m[1..];
    assert c == [c[0]] + c' && m == [c[0]] + m';
    NoDashCons(c[0], m');
    SameOutsideLiterals(c, m);
    if StartsLineComment(c) {
      assert Scan(c) == Scan(c[LineLen(c)..]);
      if Scan(c).Ok? {
        ScanNeverLonger(c[LineLen(c)..]);
      }
    } else {
      assert Scan(c) == Prepend([c[0]], [c[0]], Scan(c'));
    }
  }

  /** The first three mask characters of an aligned pair say whether a dash
      comment starts there. */
  lemma SameOutsideLiterals(c: string, m: string)
    requires Aligned(c, m) && c != [] && !IsQuote(c[0])
    ensures StartsLineComment(c) <==> DashCommentAt(m, 0)
  {
    AlignedLength(c, m);
    if |c| > 1 {
      AlignedHead(c[1..], m[1..]);
      if |c| > 2 && !IsQuote(c[1]) {
        AlignedHead(c[1..][1..], m[1..][1..]);
      }
    }
  }

  // ------------------------------------------------------------- trimming

  predicate Trimmable(c: char) {
    IsSpace(c) || c == ';'
  }

  /** Where trailing whitespace and semicolons of the mask begin. */
  function KeptEnd(m: string): (end: nat)
    ensures end <= |m|
    ensures end > 0 ==> !Trimmable(m[end - 1])
    ensures forall k | end <= k < |m| :: Trimmable(m[k])
  {
    if m != [] && Trimmable(m[|m| - 1]) then KeptEnd(m[..|m| - 1]) else |m|
  }

  /** Leading whitespace of the mask. */
  function KeptStart(m: string): (start: nat)
    ensures start <= |m|
    ensures start < |m| ==> !IsSpace(m[start])
    ensures forall k | 0 <= k < start :: IsSpace(m[k])
  {
    if m != [] && IsSpace(m[0]) then 1 + KeptStart(m[1..]) else 0
  }

  function Trim(t: Scanned): Scanned
    requires |t.code| == |t.mask|
  {
    var end := KeptEnd(t.mask);
    var start := KeptStart(t.mask[..end]);
    Scanned(t.code[start..end], t.mask[start..end])
  }

  lemma KeptEndIs(m: string, end: nat)
    requires end <= |m| && (end > 0 ==> !Trimmable(m[end - 1])) && forall k | end <= k < |m| :: Trimmable(m[k])
    ensures KeptEnd(m) == end
  {
  }

  lemma KeptStartIs(m: string, start: nat)
    requires start <= |m| && (start < |m| ==> !IsSpace(m[start])) && forall k | 0 <= k < start :: IsSpace(m[k])
    ensures KeptStart(m) == start
  {
  }

  method TrimStatement(t: Scanned) returns (r: Scanned)
    requires |t.code| == |t.mask|
    ensures r == Trim(t)
  {
    var end := |t.mask|;
    while end > 0 && (IsSpace(t.mask[end - 1]) || t.mask[end - 1] == ';')
      invariant 0 <= end <= |t.mask|
      invariant forall k | end <= k < |t.mask| :: Trimmable(t.mask[k])
    {
      end := end - 1;
    }
    KeptEndIs(t.mask, end);
    var start := 0;
    while start < end && IsSpace(t.mask[start])
      invariant 0 <= start <= end
      invariant forall k | 0 <= k < start :: IsSpace(t.mask[k])
    {
      start := start + 1;
    }
    KeptStartIs(t.mask[..end], start);
    r := Scanned(t.code[start..end], t.mask[start..end]);
  }

  lemma ShorterRest(q: char, body: string, rest: string, restMask: string)
    requires IsQuote(q) && body != [] && BodyLen(body + rest, q) == Some(|body|)
    requires |rest| == |restMask| > 0 && Aligned(rest[..|rest| - 1], restMask[..|rest| - 1])
    ensures Aligned([q] + body + rest[..|rest| - 1], MaskLiteral(q, |body|) + restMask[..|rest| - 1])
  {
    var rest' := rest[..|rest| - 1];
    BodyLenLocal(body, rest, [], q);
    BodyLenLocal(body, rest, rest', q);
    AlignedLiteral(q, body, rest', restMask[..|rest| - 1]);
  }

  lemma {:induction false} DropLast(c: string, m: string)
    requires Aligned(c, m) && m != [] && Trimmable(m[|m| - 1])
    ensures |c| == |m| && Aligned(c[..|c| - 1], m[..|m| - 1])
    decreases |c|
  {
    AlignedLength(c, m);
    if IsQuote(c[0]) {
      var n := BodyLen(c[1..], c[0]).value;
      assert m == MaskLiteral(c[0], n) + m[n + 1..];
      assert n + 1 < |m|;
      DropLast(c[n + 1..], m[n + 1..]);
      DropLastAfterLiteral(c, m, n);
    } else if |c| > 1 {
      DropLast(c[1..], m[1..]);
      AlignedChar(c[0], c[1..][..|c| - 2], m[1..][..|m| - 2]);
      assert c[..|c| - 1] == [c[0]] + c[1..][..|c| - 2];
      assert m[..|m| - 1] == [c[0]] + m[1..][..|m| - 2];
    }
  }

  lemma DropLastAfterLiteral(c: string, m: string, n: nat)
    requires c != [] && IsQuote(c[0]) && BodyLen(c[1..], c[0]) == Some(n)
    requires n + 1 < |m| == |c| && m[..n + 1] == MaskLiteral(c[0], n)
    requires Aligned(c[n + 1..][..|c| - n - 2], m[n + 1..][..|c| - n - 2])
    ensures Aligned(c[..|c| - 1], m[..|m| - 1])
  {
    var q, body, rest, restMask := c[0], c[1..n + 1], c[n + 1..], m[n + 1..];
    assert c[1..] == body + rest;
    ShorterRest(q, body, rest, restMask);
    assert c[..|c| - 1] == [q] + body + rest[..|rest| - 1];
    assert m[..|m| - 1] == MaskLiteral(q, n) + restMask[..|rest| - 1];
  }

  lemma {:induction false} TrimEndAligned(c: string, m: string)
    requires Aligned(c, m)
    ensures |c| == |m| && Aligned(c[..KeptEnd(m)], m[..KeptEnd(m)])
    decreases |m|
  {
    AlignedLength(c, m);
    if m != [] && Trimmable(m[|m| - 1]) {
      DropLast(c, m);
      var c', m' := c[..|c| - 1], m[..|m| - 1];
      TrimEndAligned(c', m');
      assert c'[..KeptEnd(m')] == c[..KeptEnd(m)] && m'[..KeptEnd(m')] == m[..KeptEnd(m)];
    } else {
      assert c[..|m|] == c && m[..|m|] == m;
    }
  }

  lemma {:induction false} TrimStartAligned(c: string, m: string)
    requires Aligned(c, m)
    ensures |c| == |m| && Aligned(c[KeptStart(m)..], m[KeptStart(m)..])
    decreases |m|
  {
    AlignedLength(c, m);
    if m != [] && IsSpace(m[0]) {
      AlignedHead(c, m);
      TrimStartAligned(c[1..], m[1..]);
      assert c[1..][KeptStart(m[1..])..] == c[KeptStart(m)..];
      assert m[1..][KeptStart(m[1..])..] == m[KeptStart(m)..];
    } else {
      assert c[0..] == c && m[0..] == m;
    }
  }

  /** Trimming never cuts into a literal. */
  lemma TrimAligned(t: Scanned)
    requires Aligned(t.code, t.mask)
    ensures |t.code| == |t.mask| && Aligned(Trim(t).code, Trim(t).mask)
  {
    TrimEndAligned(t.code, t.mask);
    var end := KeptEnd(t.mask);
    var c, m := t.code[..end], t.mask[..end];
    TrimStartAligned(c, m);
    assert c[KeptStart(m)..] == t.code[KeptStart(m)..end];
    assert m[KeptStart(m)..] == t.mask[KeptStart(m)..end];
  }

  lemma TrimTwice(t: Scanned)
    requires |t.code| == |t.mask|
    ensures Trim(Trim(t)) == Trim(t)
  {
    var u := Trim(t);
    var end := KeptEnd(t.mask);
    var start := KeptStart(t.mask[..end]);
    if u.mask != [] {
      assert u.mask[|u.mask| - 1] == t.mask[end - 1];
      assert u.mask[0] == t.mask[..end][start];
    }
    assert KeptEnd(u.mask) == |u.mask|;
    assert u.mask[..|u.mask|] == u.mask && u.code[..|u.mask|] == u.code;
  }

  // ------------------------------------------------------------- the guard

  function LeadingRun(m: string, p: char -> bool): (n: nat)
    ensures n <= |m|
  {
    if m != [] && p(m[0]) then 1 + LeadingRun(m[1..], p) else 0
  }

  predicate IsOpening(c: char) {
    IsSpace(c) || c == '('
  }

  function ToUpper(u: Unicode, s: string): string {
    seq(|s|, i requires 0 <= i < |s| => u.toUpper(s[i]))
  }

  /** The upper-cased first keyword, opening parentheses skipped. */
  function LeadingVerb(u: Unicode, m: string): string {
    var body := m[LeadingRun(m, IsOpening)..];
    ToUpper(u, body[..LeadingRun(body, c => u.isLetter(c) || c == '_')])
  }

  /** One index loop of leadingVerb: past the characters that satisfy `p`. */
  method SkipWhile(m: string, from: nat, p: char -> bool) returns (to: nat)
    requires from <= |m|
    ensures to == from + LeadingRun(m[from..], p)
  {
    to := from;
    while to < |m| && p(m[to])
      invariant from <= to <= |m|
      invariant LeadingRun(m[from..], p) == to - from + LeadingRun(m[to..], p)
    {
      assert m[to..][1..] == m[to + 1..];
      to := to + 1;
    }
  }

  method FindVerb(u: Unicode, m: string) returns (verb: string)
    ensures verb == LeadingVerb(u, m)
  {
    assert m[0..] == m;
    var i := SkipWhile(m, 0, IsOpening);
    var j := SkipWhile(m, i, c => u.isLetter(c) || c == '_');
    assert m[i..][..j - i] == m[i..j];
    verb := ToUpper(u, m[i..j]);
  }

  const READ_ONLY_VERBS: set<string> := {"SELECT", "WITH", "SHOW", "DESC", "DESCRIBE", "EXPLAIN"}

  predicate IsWordChar(c: char) {
    'a' <= c <= 'z' || 'A' <= c <= 'Z' || '0' <= c <= '9' || c == '_'
  }

  function Lower(c: char): char {
    if 'A' <= c <= 'Z' then (c as int + 32) as char else c
  }

  predicate WordAt(m: string, k: nat, w: string) {
    k + |w| <= |m| && forall i | 0 <= i < |w| :: Lower(m[k + i]) == w[i]
  }

  /** `w` at `k`, ended by a word boundary. */
  predicate KeywordAt(m: string, k: nat, w: string) {
    WordAt(m, k, w) && (k + |w| == |m| || !IsWordChar(m[k + |w|]))
  }

  predicate IsRegexpSpace(c: char) {
    c == ' ' || c == '\t' || c == '\n' || c == '\r' || c == '\U{000C}'
  }

  predicate IntoAt(m: string, k: nat) {
    (k == 0 || (k <= |m| && !IsWordChar(m[k - 1]))) && WordAt(m, k, "into")
  }

  predicate FileAt(m: string, k: nat) {
    KeywordAt(m, k, "outfile") || KeywordAt(m, k, "dumpfile")
  }

  /** The pattern \binto\s+(outfile|dumpfile)\b, case-insensitively, at `k`. */
  predicate IntoFileAt(m: string, k: nat) {
    && IntoAt(m, k)
    && var gap := LeadingRun(m[k + 4..], IsRegexpSpace);
       gap > 0 && FileAt(m, k + 4 + gap)
  }

  predicate WritesFile(m: string) {
    exists k: nat | k < |m| :: IntoFileAt(m, k)
  }

  /** The checks that follow scanning and trimming; they read only the mask. */
  function Verdict(u: Unicode, m: string): Option<Rejection> {
    if m == [] then Some(EmptyStatement)
    else if ';' in m then Some(SecondStatement)
    else
      var verb := LeadingVerb(u, m);
      if verb == "" then Some(NoVerb)
      else if verb !in READ_ONLY_VERBS then Some(NotReadOnly(verb))
      else if WritesFile(m) then Some(WritesServerFile)
      else None
  }

  function Guard(u: Unicode, stmt: string): Result<string, Rejection> {
    match Scan(stmt)
    case Err(e) => Err(e)
    case Ok(t) =>
      ScanAligned(stmt);
      AlignedLength(t.code, t.mask);
      var r := Trim(t);
      match Verdict(u, r.mask) case Some(e) => Err(e) case None => Ok(r.code)
  }

  /** EnsureReadOnly, assembled from the loops above. */
  method EnsureReadOnly(u: Unicode, stmt: string) returns (r: Result<string, Rejection>)
    ensures r == Guard(u, stmt)
  {
    var scanned := ScanStatement(stmt);
    if scanned.Err? {
      return Err(scanned.error);
    }
    ScanAligned(stmt);
    AlignedLength(scanned.value.code, scanned.value.mask);
    var t := TrimStatement(scanned.value);
    if t.code == [] {
      return Err(EmptyStatement);
    }
    if ';' in t.mask {
      return Err(SecondStatement);
    }
    var verb := FindVerb(u, t.mask);
    if verb == "" {
      return Err(NoVerb);
    }
    if verb !in READ_ONLY_VERBS {
      return Err(NotReadOnly(verb));
    }
    r := if WritesFile(t.mask) then Err(WritesServerFile) else Ok(t.code);
  }

  /** What an accepted statement looks like: the mask belonging to the returned text. */
  ghost function AcceptedMask(stmt: string): string
    requires Scan(stmt).Ok?
  {
    ScanAligned(stmt);
    AlignedLength(Scan(stmt).value.code, Scan(stmt).value.mask);
    Trim(Scan(stmt).value).mask
  }

  /**
   Re-scanning what the guard returned gives the same code and mask, and the
   guard returns it unchanged, exactly when the returned text holds no unquoted
   "--" followed by whitespace or the end of the text.
   */
  lemma GuardIsIdempotentIff(u: Unicode, stmt: string)
    requires Guard(u, stmt).Ok?
    ensures var out := Guard(u, stmt).value;
            var mask := AcceptedMask(stmt);
            && Aligned(out, mask)
            && (NoDashComment(mask) <==> Scan(out) == Ok(Scanned(out, mask)))
            && (NoDashComment(mask) <==> Guard(u, out) == Ok(out))
  {
    var t := Scan(stmt).value;
    ScanAligned(stmt);
    AlignedLength(t.code, t.mask);
    TrimAligned(t);
    TrimTwice(t);
    GuardFixedIff(u, Guard(u, stmt).value, AcceptedMask(stmt));
  }

  lemma GuardFixedIff(u: Unicode, out: string, mask: string)
    requires Aligned(out, mask) && |out| == |mask| && Trim(Scanned(out, mask)) == Scanned(out, mask)
    requires Verdict(u, mask) == None
    ensures NoDashComment(mask) <==> Scan(out) == Ok(Scanned(out, mask))
    ensures NoDashComment(mask) <==> Guard(u, out) == Ok(out)
  {
    ScanFixpoint(out, mask);
    if Scan(out).Ok? && !NoDashComment(mask) {
      ScanAligned(out);
      AlignedLength(Scan(out).value.code, Scan(out).value.mask);
    }
  }

  /** Text without quotes, slashes, dashes or "#" goes through a scan as it is. */
  predicate IsPlain(s: string) {
    forall i | 0 <= i < |s| :: !IsQuote(s[i]) && s[i] != '/' && s[i] != '-' && s[i] != '#'
  }

  lemma {:induction false} ScanPlain(p: string, rest: string)
    requires IsPlain(p)
    ensures Scan(p + rest) == Prepend(p, p, Scan(rest))
    decreases |p|
  {
    if p == [] {
      assert [] + rest == rest;
      PrependNothing(Scan(rest));
    } else {
      assert (p + rest)[1..] == p[1..] + rest;
      ScanPlain(p[1..], rest);
      PrependPrepend([p[0]], [p[0]], p[1..], p[1..], Scan(rest));
      assert [p[0]] + p[1..] == p;
    }
  }

  lemma ScanLast(x: char)
    requires !IsQuote(x) && x != '#'
    ensures Scan([x]) == Ok(Scanned([x], [x]))
  {
    assert [x][1..] == [] && [x] + [] == [x];
  }

  lemma ScanDash(s: string)
    requires !StartsDashComment("-" + s)
    ensures Scan("-" + s) == Prepend("-", "-", Scan(s))
  {
    assert ("-" + s)[1..] == s;
  }

  lemma ScanEmptyComment(s: string)
    ensures Scan("/**/" + s) == Prepend(" ", " ", Scan(s))
  {
    var t := "/**/" + s;
    assert t[2..][0] == '*' && t[2..][1] == '/';
    assert t[4..] == s;
  }

  lemma ScanDashComment(s: string)
    requires StartsDashComment(s) && forall i | 0 <= i < |s| :: s[i] != '\n'
    ensures Scan(s) == Ok(Scanned("", ""))
  {
    assert s[|s|..] == [];
  }

  lemma DashesThenComment()
    ensures Scan("-" + ("-" + ("/**/" + "1"))) == Ok(Scanned("-- 1", "-- 1"))
  {
    ScanLast('1');
    ScanEmptyComment("1");
    ScanDash("/**/" + "1");
    ScanDash("-" + ("/**/" + "1"));
    assert "-" + ("-" + (" " + "1")) == "-- 1";
  }

  /** The excluded family is not empty: the blank that replaces a block comment
      makes a comment of the two dashes in front of it. */
  lemma DashCommentExample(s: string, out: string)
    requires s == "SHOW " + ("-" + ("-" + ("/**/" + "1")))
    requires out == "SHOW " + "-- 1"
    ensures Scan(s) == Ok(Scanned(out, out))
    ensures !NoDashComment(out) && Scan(out) == Ok(Scanned("SHOW ", "SHOW "))
  {
    DashesThenComment();
    ScanPlain("SHOW ", "-" + ("-" + ("/**/" + "1")));
    assert DashCommentAt(out, 5);
    ScanDashComment("-- 1");
    ScanPlain("SHOW ", "-- 1");
    assert "SHOW " + "" == "SHOW ";
  }

  lemma {:induction false} LeadingRunIs(m: string, p: char -> bool, n: nat)
    requires n <= |m| && forall i | 0 <= i < n :: p(m[i])
    requires n == |m| || !p(m[n])
    ensures LeadingRun(m, p) == n
    decreases n
  {
    if n > 0 {
      LeadingRunIs(m[1..], p, n - 1);
    }
  }

  /** What the Unicode tables say about the letters A to Z. */
  ghost predicate KnowsAscii(u: Unicode) {
    (forall c | 'A' <= c <= 'Z' :: u.isLetter(c) && u.toUpper(c) == c) && !u.isLetter(' ')
  }

  lemma LeadingWord(u: Unicode, m: string, w: string)
    requires KnowsAscii(u) && 0 < |w| < |m| && m[..|w|] == w && m[|w|] == ' '
    requires forall i | 0 <= i < |w| :: 'A' <= w[i] <= 'Z'
    ensures LeadingVerb(u, m) == w
  {
    forall i | 0 <= i < |w| ensures m[i] == w[i] {
      assert m[..|w|][i] == w[i];
    }
    LeadingRunIs(m, IsOpening, 0);
    assert m[0..] == m;
    LeadingRunIs(m, c => u.isLetter(c) || c == '_', |w|);
    assert ToUpper(u, w) == w;
  }

  lemma ShowVerdict(u: Unicode, m: string)
    requires KnowsAscii(u) && |m| > 4 && m[..4] == "SHOW" && m[4] == ' '
    requires forall k | 0 <= k < |m| :: m[k] != ';' && Lower(m[k]) != 'i'
    ensures Verdict(u, m) == None
  {
    LeadingWord(u, m, "SHOW");
    forall k: nat | k < |m| ensures !WordAt(m, k, "into") {
      assert "into"[0] == 'i' && m[k] == m[k + 0];
    }
  }

  lemma GuardChanges(u: Unicode, s: string, out: string)
    requires Scan(s) == Ok(Scanned(out, out)) && !NoDashComment(out) && Verdict(u, out) == None
    requires out != [] && !Trimmable(out[|out| - 1]) && !IsSpace(out[0])
    ensures Guard(u, s) == Ok(out) && Guard(u, out) != Ok(out)
  {
    TrimmedAlready(out);
    assert Guard(u, s) == Ok(out);
    GuardIsIdempotentIff(u, s);
  }

  /** So there the guard returns a statement that it then changes. */
  lemma DashCommentGuarded(u: Unicode, s: string, out: string)
    requires KnowsAscii(u)
    requires s == "SHOW " + ("-" + ("-" + ("/**/" + "1")))
    requires out == "SHOW " + "-- 1"
    ensures Guard(u, s) == Ok(out) && Guard(u, out) != Ok(out)
  {
    DashCommentExample(s, out);
    assert out[..4] == "SHOW";
    ShowVerdict(u, out);
    GuardChanges(u, s, out);
  }

  lemma TrimmedAlready(m: string)
    requires m != [] && !Trimmable(m[|m| - 1]) && !IsSpace(m[0])
    ensures Trim(Scanned(m, m)) == Scanned(m, m)
  {
    assert m[..|m|] == m;
  }
}
