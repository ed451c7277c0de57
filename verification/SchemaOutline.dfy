/**
 The schema-outline statement of internal/service/database_query_service.go: a
 schema name is quoted by hand into a statement that then passes the read-only
 guard. Names are sequences of Unicode characters.
 */
module SchemaOutline {
  import opened Common
  import opened SqlGuard

  datatype QuoteError = InvalidDatabaseName

  predicate Quotable(v: string) {
    forall i | 0 <= i < |v| :: v[i] != '\0' && v[i] != '\n' && v[i] != '\r'
  }

  function Escape(v: string): string {
    ReplaceAll(ReplaceAll(v, '\\', "\\\\"), '\'', "''")
  }

  function Quote(v: string): Result<string, QuoteError> {
    if Quotable(v) then Ok("'" + Escape(v) + "'") else Err(InvalidDatabaseName)
  }

  // The fixed text, in pieces.
  const SELECTED: string := "SELECT TABLE"
  const COLUMN: string := "_NAME, COLUMN"
  const NAME: string := "_NAME"
  const SOURCE: string := " FROM information"
  const COLUMNS: string := "_schema.COLUMNS"
  const FILTER: string := " WHERE TABLE"
  const NAMED: string := "_SCHEMA = "
  const HEAD: string := SELECTED + COLUMN + NAME + SOURCE + COLUMNS + FILTER + NAMED
  const ORDERED: string := " ORDER BY TABLE"
  const FIRST: string := "_NAME, ORDINAL"
  const POSITION: string := "_POSITION"
  const TAIL: string := ORDERED + FIRST + POSITION

  /** The statement SchemaOutline sends, for an already trimmed name. */
  function Statement(v: string): Result<string, QuoteError> {
    match Quote(v) case Err(e) => Err(e) case Ok(quoted) => Ok(HEAD + quoted + TAIL)
  }

  // ------------------------------------------------- reading a literal back

  /** What MySQL's default mode makes of a backslash escape. */
  function Unescape(c: char): char {
    match c
    case '0' => '\0'
    case 'b' => '\U{0008}'
    case 'n' => '\n'
    case 'r' => '\r'
    case 't' => '\t'
    case 'Z' => '\U{001A}'
    case _ => c
  }

  /** The value of a single-quoted literal, given everything after its opening
      quote, and the text behind it. */
  function ReadLiteral(s: string): Option<(string, string)> {
    if s == [] then None
    else if s[0] == '\\' && |s| > 1 then Push(Unescape(s[1]), ReadLiteral(s[2..]))
    else if s[0] == '\'' then
      if |s| > 1 && s[1] == '\'' then Push('\'', ReadLiteral(s[2..])) else Some(("", s[1..]))
    else Push(s[0], ReadLiteral(s[1..]))
  }

  function Push(c: char, r: Option<(string, string)>): Option<(string, string)> {
    match r case None => None case Some(p) => Some(([c] + p.0, p.1))
  }

  /** The two successive replacements act on each character separately. */
  lemma EscapeCons(c: char, v: string)
    ensures Escape([c] + v) == (if c == '\\' then "\\\\" else if c == '\'' then "''" else [c]) + Escape(v)
  {
    var inner := ReplaceAll(v, '\\', "\\\\");
    ReplaceAllCons(c, v, '\\', "\\\\");
    if c == '\\' {
      assert "\\\\" + inner == ['\\'] + (['\\'] + inner);
      ReplaceAllCons('\\', ['\\'] + inner, '\'', "''");
      ReplaceAllCons('\\', inner, '\'', "''");
      assert ['\\'] + (['\\'] + Escape(v)) == "\\\\" + Escape(v);
    } else {
      ReplaceAllCons(c, inner, '\'', "''");
    }
  }

  /** A quoted name is one closed literal, whatever the name, and reads back as
      exactly that name. */
  lemma {:induction false} EscapedBody(v: string, rest: string)
    requires rest == [] || rest[0] != '\''
    ensures BodyLen(Escape(v) + "'" + rest, '\'') == Some(|Escape(v)| + 1)
    ensures ReadLiteral(Escape(v) + "'" + rest) == Some((v, rest))
    decreases |v|
  {
    if v == [] {
      assert "" + "'" + rest == "'" + rest;
      assert ("'" + rest)[1..] == rest;
    } else {
      var c, v' := v[0], v[1..];
      assert v == [c] + v';
      EscapeCons(c, v');
      EscapedBody(v', rest);
      var body := Escape(v') + "'" + rest;
      var e := if c == '\\' || c == '\'' then [c, c] else [c];
      ConcatAssociates(e, Escape(v'), "'");
      ConcatAssociates(e, Escape(v') + "'", rest);
      ConcatSplits(e, body);
    }
  }

  // ------------------------------------------------------ passing the guard

  /** Text that a scan leaves alone and that holds no ";" and no "int" in any
      letter case, hence no "into". */
  ghost predicate Harmless(m: string) {
    && IsPlain(m)
    && (forall i | 0 <= i < |m| :: m[i] != ';')
    && NoInt(m)
  }

  ghost predicate IntAt(m: string, k: nat)
    requires k + 2 < |m|
  {
    Lower(m[k]) == 'i' && Lower(m[k + 1]) == 'n' && Lower(m[k + 2]) == 't'
  }

  ghost predicate NoInt(m: string) {
    forall k: nat | k + 2 < |m| :: !IntAt(m, k)
  }

  lemma NoIntAcross(a: string, b: string)
    requires NoInt(a) && NoInt(b)
    requires b != [] ==> Lower(b[0]) != 'n' && Lower(b[0]) != 't'
    ensures NoInt(a + b)
  {
    var m := a + b;
    forall k: nat | k + 2 < |m| ensures !IntAt(m, k) {
      if k + 2 < |a| {
        assert !IntAt(a, k);
      } else if k >= |a| {
        assert !IntAt(b, k - |a|);
      } else {
        assert b[0] == m[k + 1] || b[0] == m[k + 2];
      }
    }
  }

  lemma NoIntNoFile(m: string)
    requires NoInt(m)
    ensures !WritesFile(m)
  {
    forall k: nat | k < |m| ensures !WordAt(m, k, "into") {
      if k + 4 <= |m| {
        assert !IntAt(m, k);
        assert "into"[0] == 'i' && "into"[1] == 'n' && "into"[2] == 't';
        assert !(Lower(m[k + 0]) == "into"[0] && Lower(m[k + 1]) == "into"[1] && Lower(m[k + 2]) == "into"[2]);
      }
    }
  }

  lemma Joined(a: string, b: string)
    requires Harmless(a) && Harmless(b)
    requires b != [] ==> Lower(b[0]) != 'n' && Lower(b[0]) != 't'
    ensures Harmless(a + b)
  {
    NoIntAcross(a, b);
  }

  lemma SelectedIsHarmless() ensures Harmless(SELECTED) && |SELECTED| > 7 && SELECTED[..7] == "SELECT " {}

  lemma ColumnIsHarmless() ensures Harmless(COLUMN) && COLUMN[0] == '_' {}

  lemma NameIsHarmless() ensures Harmless(NAME) && NAME[0] == '_' {}

  lemma SourceIsHarmless() ensures Harmless(SOURCE) && SOURCE[0] == ' ' {}

  lemma ColumnsIsHarmless() ensures Harmless(COLUMNS) && COLUMNS[0] == '_' {}

  lemma FilterIsHarmless() ensures Harmless(FILTER) && FILTER[0] == ' ' {}

  lemma NamedIsHarmless() ensures Harmless(NAMED) && NAMED[0] == '_' {}

  lemma OrderedIsHarmless() ensures Harmless(ORDERED) && ORDERED[0] == ' ' {}

  lemma FirstIsHarmless() ensures Harmless(FIRST) && FIRST[0] == '_' {}

  lemma PositionIsHarmless() ensures Harmless(POSITION) && POSITION[0] == '_' && POSITION[|POSITION| - 1] == 'N' {}

  lemma TailIsHarmless()
    ensures Harmless(TAIL) && TAIL[0] == ' ' && TAIL[|TAIL| - 1] == 'N'
  {
    OrderedIsHarmless();
    FirstIsHarmless();
    PositionIsHarmless();
    Joined(ORDERED, FIRST);
    Joined(ORDERED + FIRST, POSITION);
  }

  lemma HeadIsHarmless()
    ensures Harmless(HEAD) && |HEAD| > 7 && HEAD[..7] == "SELECT "
  {
    SelectedIsHarmless();
    ColumnIsHarmless();
    NameIsHarmless();
    SourceIsHarmless();
    ColumnsIsHarmless();
    FilterIsHarmless();
    NamedIsHarmless();
    Joined(SELECTED, COLUMN);
    Joined(SELECTED + COLUMN, NAME);
    Joined(SELECTED + COLUMN + NAME, SOURCE);
    Joined(SELECTED + COLUMN + NAME + SOURCE, COLUMNS);
    Joined(SELECTED + COLUMN + NAME + SOURCE + COLUMNS, FILTER);
    Joined(SELECTED + COLUMN + NAME + SOURCE + COLUMNS + FILTER, NAMED);
    assert HEAD[..7] == SELECTED[..7];
  }

  lemma LeadingSelect(u: Unicode, m: string)
    requires KnowsAscii(u) && |m| > 7 && m[..7] == "SELECT "
    ensures LeadingVerb(u, m) == "SELECT"
  {
    assert m[..6] == m[..7][..6] == "SELECT" && m[6] == m[..7][6];
    LeadingWord(u, m, "SELECT");
  }

  /** Fixed text around one blanked literal. */
  function MaskAround(head: string, v: string, tail: string): string {
    head + (MaskLiteral('\'', |Escape(v)| + 1) + tail)
  }

  /** Text a quoted name may stand between. */
  ghost predicate Frames(head: string, tail: string) {
    && Harmless(head) && |head| > 7 && head[..7] == "SELECT "
    && Harmless(tail) && tail != [] && tail[0] == ' ' && !Trimmable(tail[|tail| - 1])
  }

  lemma AroundPasses(u: Unicode, head: string, v: string, tail: string)
    requires KnowsAscii(u) && Frames(head, tail)
    ensures Verdict(u, MaskAround(head, v, tail)) == None
  {
    var literal := MaskLiteral('\'', |Escape(v)| + 1);
    NoIntAcross(literal, tail);
    NoIntAcross(head, literal + tail);
    var m := MaskAround(head, v, tail);
    NoIntNoFile(m);
    assert m[..7] == head[..7];
    LeadingSelect(u, m);
    forall i | 0 <= i < |m| ensures m[i] != ';' {
      assert m[i] == if i < |head| then head[i] else (literal + tail)[i - |head|];
    }
  }

  lemma PlainScans(p: string)
    requires IsPlain(p)
    ensures Scan(p) == Ok(Scanned(p, p))
  {
    ScanPlain(p, []);
    assert p + [] == p;
  }

  lemma QuotedScans(v: string, tail: string)
    requires Scan(tail) == Ok(Scanned(tail, tail)) && tail != [] && tail[0] != '\''
    ensures var literal := "'" + (Escape(v) + "'" + tail);
            Scan(literal) == Ok(Scanned(literal, MaskLiteral('\'', |Escape(v)| + 1) + tail))
  {
    var e := Escape(v) + "'";
    var literal := "'" + (e + tail);
    EscapedBody(v, tail);
    ConcatSplits("'", e + tail);
    ScanClosedLiteral(literal, |e|);
    ConcatAssociates("'", e, tail);
    ConcatSplits("'" + e, tail);
  }

  lemma AroundScans(head: string, v: string, tail: string)
    requires Frames(head, tail)
    ensures var stmt := head + ("'" + Escape(v) + "'") + tail;
            && Scan(stmt) == Ok(Scanned(stmt, MaskAround(head, v, tail)))
            && ReadLiteral(stmt[|head| + 1..]) == Some((v, tail))
  {
    var e := Escape(v);
    var literal := "'" + (e + "'" + tail);
    PlainScans(tail);
    QuotedScans(v, tail);
    ScanPlain(head, literal);
    ConcatAssociates(head, "'" + e + "'", tail);
    ConcatAssociates("'", e, "'");
    ConcatAssociates("'", e + "'", tail);
    ConcatSplits(head, literal);
    EscapedBody(v, tail);
    ConcatSplits(head + "'", e + "'" + tail);
    ConcatAssociates(head, "'", e + "'" + tail);
  }

  lemma NothingToTrim(t: Scanned)
    requires |t.code| == |t.mask| && t.mask != []
    requires !Trimmable(t.mask[|t.mask| - 1]) && !IsSpace(t.mask[0])
    ensures Trim(t) == t
  {
    assert KeptEnd(t.mask) == |t.mask|;
    assert t.mask[..|t.mask|] == t.mask && t.code[..|t.mask|] == t.code;
  }

  /** Only a NUL or a line break makes a name unusable. */
  lemma StatementFailsIff(v: string)
    ensures Statement(v).Err? <==> '\0' in v || '\n' in v || '\r' in v
  {
  }

  /**
   Every name without NUL and line breaks yields a statement that scans as the fixed
   text around one closed literal with a blank mask, that the guard accepts and returns
   unchanged, and whose literal reads back as the name.
   */
  lemma OutlineStatementIsGuarded(u: Unicode, v: string)
    requires KnowsAscii(u) && '\0' !in v && '\n' !in v && '\r' !in v
    ensures Statement(v).Ok?
    ensures var stmt := Statement(v).value;
            && Scan(stmt) == Ok(Scanned(stmt, MaskAround(HEAD, v, TAIL)))
            && Guard(u, stmt) == Ok(stmt)
            && HEAD <= stmt && stmt[|HEAD|] == '\'' && ReadLiteral(stmt[|HEAD| + 1..]) == Some((v, TAIL))
  {
    HeadIsHarmless();
    TailIsHarmless();
    AroundScans(HEAD, v, TAIL);
    AroundPasses(u, HEAD, v, TAIL);
    var t := Scanned(Statement(v).value, MaskAround(HEAD, v, TAIL));
    assert t.mask[0] == HEAD[..7][0] && t.mask[|t.mask| - 1] == TAIL[|TAIL| - 1];
    NothingToTrim(t);
  }
}
