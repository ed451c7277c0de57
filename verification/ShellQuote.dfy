/**
 Quoting for remote commands (internal/runner/runner.go and
 internal/pipeline/compose_override.go), against a reader of the single-quote and
 escape rules of sections 2.2.1 and 2.2.2 of the POSIX.1-2017 Shell Command Language,
 and of assignments in front of a command (sections 2.9.1 and 2.10.2, rule 7).
 */
module ShellQuote {
  import opened Common

  const QUOTED_QUOTE: string := "'\\''"

  /** shellQuote: single quotes around s, every inner quote spelled '\'' . */
  function Quote(s: string): string {
    "'" + ReplaceAll(s, '\'', QUOTED_QUOTE) + "'"
  }

  /** shQuote: the same text, appended byte by byte. */
  method ShQuote(s: string) returns (out: string)
    ensures out == Quote(s)
  {
    out := "'";
    var i := 0;
    while i < |s|
      invariant 0 <= i <= |s|
      invariant out + ReplaceAll(s[i..], '\'', QUOTED_QUOTE) == "'" + ReplaceAll(s, '\'', QUOTED_QUOTE)
    {
      assert s[i..][1..] == s[i + 1..];
      if s[i] == '\'' {
        out := out + ['\'', '\\', '\'', '\''];
      } else {
        out := out + [s[i]];
      }
      i := i + 1;
    }
    out := out + "'";
  }

  // -------------------------------------------------------------- the reader

  /** A word, and where its "=" is if it starts with an unquoted name and "=". */
  datatype Token = Word(text: string, eq: Option<nat>) | AndIf

  /** What the word read so far starts with: nothing but an unquoted name, a name and
      its "=", or something else. */
  datatype Start = Naming | Named(at: nat) | Other

  datatype Mode = Between | InWord(cur: string, st: Start) | InQuote(cur: string, st: Start)

  predicate IsLetter(c: char) {
    'a' <= c <= 'z' || 'A' <= c <= 'Z' || c == '_'
  }

  predicate IsDigit(c: char) {
    '0' <= c <= '9'
  }

  /** Characters that stand for themselves outside quotes. */
  predicate IsPlain(c: char) {
    IsLetter(c) || IsDigit(c) || c in "-./=:,@%+"
  }

  /** One more unquoted character. */
  function Track(st: Start, cur: string, c: char): Start {
    if !st.Naming? then st
    else if c == '=' && cur != "" then Named(|cur|)
    else if IsLetter(c) || (IsDigit(c) && cur != "") then Naming
    else Other
  }

  /** A quote or an escape ends a name. */
  function Broken(st: Start): Start {
    if st.Naming? then Other else st
  }

  function WordOf(cur: string, st: Start): Token {
    Word(cur, if st.Named? then Some(st.at) else None)
  }

  function Cons(t: Token, r: Option<seq<Token>>): Option<seq<Token>> {
    match r case None => None case Some(ts) => Some([t] + ts)
  }

  /** The words and && operators of a line; None for an unclosed quote, a NUL, or an
      unquoted character that means something else to a shell. */
  function Read(s: string, mode: Mode): Option<seq<Token>>
    decreases |s|, mode.InWord?
  {
    match mode
    case InQuote(cur, st) =>
      if s == [] || s[0] == '\0' then None
      else if s[0] == '\'' then Read(s[1..], InWord(cur, st))
      else Read(s[1..], InQuote(cur + [s[0]], st))
    case InWord(cur, st) =>
      if s == [] then Some([WordOf(cur, st)])
      else if s[0] == ' ' || s[0] == '&' then Cons(WordOf(cur, st), Read(s, Between))
      else if s[0] == '\'' then Read(s[1..], InQuote(cur, Broken(st)))
      else if s[0] == '\\' then
        if |s| < 2 || s[1] == '\0' then None
        else Read(s[2..], if s[1] == '\n' then InWord(cur, st) else InWord(cur + [s[1]], Broken(st)))
      else if IsPlain(s[0]) then Read(s[1..], InWord(cur + [s[0]], Track(st, cur, s[0])))
      else None
    case Between =>
      if s == [] then Some([])
      else if s[0] == ' ' then Read(s[1..], Between)
      else if s[0] == '&' then
        if |s| > 1 && s[1] == '&' then Cons(AndIf, Read(s[2..], Between)) else None
      else if s[0] == '\'' then Read(s[1..], InQuote("", Other))
      else if s[0] == '\\' then
        if |s| < 2 || s[1] == '\0' then None
        else if s[1] == '\n' then Read(s[2..], Between)
        else Read(s[2..], InWord([s[1]], Other))
      else if IsPlain(s[0]) then Read(s[1..], InWord([s[0]], Track(Naming, "", s[0])))
      else None
  }

  predicate NoNul(s: string) {
    forall i | 0 <= i < |s| :: s[i] != '\0'
  }

  /** The inside of a quoted string reads back as the string. */
  lemma {:induction false} QuotedBody(s: string, rest: string, cur: string, st: Start)
    requires NoNul(s) && !st.Naming?
    ensures Read(ReplaceAll(s, '\'', QUOTED_QUOTE) + "'" + rest, InQuote(cur, st)) == Read(rest, InWord(cur + s, st))
    decreases |s|
  {
    if s == [] {
      assert ("" + "'" + rest)[1..] == rest && cur + s == cur;
    } else {
      var body := ReplaceAll(s[1..], '\'', QUOTED_QUOTE) + "'" + rest;
      var cur' := cur + [s[0]];
      QuotedBody(s[1..], rest, cur', st);
      assert cur' + s[1..] == cur + s;
      assert s[0] != '\0';
      if s[0] == '\'' {
        EscapedQuote(body, cur, st);
        assert ReplaceAll(s, '\'', QUOTED_QUOTE) + "'" + rest == QUOTED_QUOTE + body;
      } else {
        var text := ReplaceAll(s, '\'', QUOTED_QUOTE) + "'" + rest;
        assert text == [s[0]] + body;
        assert text[1..] == body;
      }
    }
  }

  lemma EscapedQuote(body: string, cur: string, st: Start)
    requires !st.Naming?
    ensures Read(QUOTED_QUOTE + body, InQuote(cur, st)) == Read(body, InQuote(cur + ['\''], st))
  {
    var t0 := QUOTED_QUOTE + body;
    var t1, t3 := t0[1..], t0[3..];
    assert t0[0] == '\'' && t1[0] == '\\' && t1[1] == '\'' && t1[2..] == t3;
    assert t3[0] == '\'' && t3[1..] == body;
    assert Read(t3, InWord(cur + ['\''], st)) == Read(body, InQuote(cur + ['\''], st));
    assert Read(t1, InWord(cur, st)) == Read(t3, InWord(cur + ['\''], st));
  }

  /** A quoted string is read as part of one word, whatever it holds, and never as a
      name or an assignment of its own. */
  lemma QuoteReads(s: string, rest: string, cur: string, st: Start)
    requires NoNul(s)
    ensures Read(Quote(s) + rest, InWord(cur, st)) == Read(rest, InWord(cur + s, Broken(st)))
    ensures Read(Quote(s) + rest, Between) == Read(rest, InWord(s, Other))
  {
    var body := ReplaceAll(s, '\'', QUOTED_QUOTE) + "'" + rest;
    assert Quote(s) + rest == "'" + body;
    assert ("'" + body)[1..] == body;
    QuotedBody(s, rest, cur, Broken(st));
    QuotedBody(s, rest, "", Other);
    assert "" + s == s;
  }

  // -------------------------------------------------------- simple commands

  /** Assignments for one command, and its name and arguments. */
  datatype Command = Command(assigns: seq<(string, string)>, words: seq<string>)

  const NO_COMMAND := Command([], [])

  /** A word in front of the command name that starts with a name and "=" is an assignment. */
  function Add(c: Command, w: Token): Command
    requires w.Word?
  {
    if c.words == [] && w.eq.Some? && w.eq.value < |w.text| then
      c.(assigns := c.assigns + [(w.text[..w.eq.value], w.text[w.eq.value + 1..])])
    else c.(words := c.words + [w.text])
  }

  /** The commands joined by &&; `c` is the one being read. */
  function Parse(ts: seq<Token>, c: Command): seq<Command>
    decreases |ts|
  {
    if ts == [] then [c]
    else if ts[0].AndIf? then [c] + Parse(ts[1..], NO_COMMAND)
    else Parse(ts[1..], Add(c, ts[0]))
  }

  function AddAll(c: Command, ts: seq<Token>): Command
    requires forall i | 0 <= i < |ts| :: ts[i].Word?
    decreases |ts|
  {
    if ts == [] then c else AddAll(Add(c, ts[0]), ts[1..])
  }

  lemma {:induction false} ParseWords(ts: seq<Token>, c: Command)
    requires forall i | 0 <= i < |ts| :: ts[i].Word?
    ensures Parse(ts, c) == [AddAll(c, ts)]
    decreases |ts|
  {
    if ts != [] {
      ParseWords(ts[1..], Add(c, ts[0]));
    }
  }

  /** What a shell runs for a line. */
  function Commands(line: string): Option<seq<Command>> {
    match Read(line, Between) case None => None case Some(ts) => Some(Parse(ts, NO_COMMAND))
  }

  // -------------------------------------------------------- the command line

  /** A part that reads, in front of a blank or the end, as the word `w`. */
  ghost predicate ReadsAs(part: string, w: Token) {
    w.Word? && forall rest: string :: Read(part + rest, Between) == Read(rest, InWord(w.text, StartOf(w)))
  }

  function StartOf(w: Token): Start
    requires w.Word?
  {
    if w.eq.Some? then Named(w.eq.value) else Other
  }

  function Join(parts: seq<string>): string {
    if parts == [] then "" else if |parts| == 1 then parts[0] else parts[0] + " " + Join(parts[1..])
  }

  lemma {:induction false} JoinReads(parts: seq<string>, ws: seq<Token>)
    requires |parts| == |ws| > 0 && forall i | 0 <= i < |parts| :: ReadsAs(parts[i], ws[i])
    ensures Read(Join(parts), Between) == Some(ws)
    decreases |parts|
  {
    var w := ws[0];
    assert ReadsAs(parts[0], w);
    if |parts| == 1 {
      assert parts[0] + "" == parts[0];
      assert Read("", InWord(w.text, StartOf(w))) == Some([w]);
      assert ws == [w];
    } else {
      var rest := " " + Join(parts[1..]);
      assert Join(parts) == parts[0] + rest;
      assert Read(parts[0] + rest, Between) == Read(rest, InWord(w.text, StartOf(w)));
      JoinReads(parts[1..], ws[1..]);
      AfterBlank(Join(parts[1..]), w.text, StartOf(w));
      assert ws == [w] + ws[1..];
    }
  }

  /** The first "=" of an environment entry, or its length. */
  function EqualsAt(e: string): (k: nat)
    ensures k <= |e| && (k < |e| ==> e[k] == '=')
    ensures forall i | 0 <= i < k :: e[i] != '='
  {
    if e == [] || e[0] == '=' then 0 else 1 + EqualsAt(e[1..])
  }

  predicate IsAssignment(e: string) {
    0 < EqualsAt(e) < |e|
  }

  function Assignment(e: string): string
    requires IsAssignment(e)
  {
    e[..EqualsAt(e)] + "=" + Quote(e[EqualsAt(e) + 1..])
  }

  /** Entries without a name before "=" are skipped. */
  function Kept(env: seq<string>): seq<string> {
    if env == [] then []
    else Kept(env[..|env| - 1]) + if IsAssignment(env[|env| - 1]) then [env[|env| - 1]] else []
  }

  lemma {:induction false} KeptAreAssignments(env: seq<string>)
    ensures forall i | 0 <= i < |Kept(env)| :: IsAssignment(Kept(env)[i]) && Kept(env)[i] in env
    decreases |env|
  {
    if env != [] {
      KeptAreAssignments(env[..|env| - 1]);
    }
  }

  function Assignments(env: seq<string>): seq<string> {
    KeptAreAssignments(env);
    seq(|Kept(env)|, i requires 0 <= i < |Kept(env)| => Assignment(Kept(env)[i]))
  }

  function Parts(env: seq<string>, name: string, args: seq<string>): seq<string> {
    Assignments(env) + [Quote(name)] + seq(|args|, i requires 0 <= i < |args| => Quote(args[i]))
  }

  function Remote(dir: string, env: seq<string>, name: string, args: seq<string>): string {
    var line := Join(Parts(env, name, args));
    if dir != "" then "cd " + Quote(dir) + " && " + line else line
  }

  lemma AssignmentsSnoc(env: seq<string>, e: string)
    ensures Assignments(env + [e]) == if IsAssignment(e) then Assignments(env) + [Assignment(e)] else Assignments(env)
  {
    assert (env + [e])[..|env|] == env;
    KeptAreAssignments(env);
    KeptAreAssignments(env + [e]);
  }

  /** RunCmdEnv's loop over the environment. */
  method AssignmentParts(env: seq<string>) returns (parts: seq<string>)
    ensures parts == Assignments(env)
  {
    parts := [];
    for i := 0 to |env|
      invariant parts == Assignments(env[..i])
    {
      assert env[..i + 1] == env[..i] + [env[i]];
      AssignmentsSnoc(env[..i], env[i]);
      var eq := EqualsAt(env[i]);
      if eq == |env[i]| || eq <= 0 {
        continue;
      }
      parts := parts + [env[i][..eq] + "=" + Quote(env[i][eq + 1..])];
    }
    assert env[..|env|] == env;
  }

  /** The rest of RunCmdEnv: the arguments' loop and the join. */
  method RemoteLine(dir: string, env: seq<string>, name: string, args: seq<string>) returns (line: string)
    ensures line == Remote(dir, env, name, args)
  {
    var parts := AssignmentParts(env);
    ghost var assignments := parts;
    parts := parts + [Quote(name)];
    for i := 0 to |args|
      invariant |parts| == |assignments| + 1 + i
      invariant parts[..|assignments| + 1] == assignments + [Quote(name)]
      invariant forall k | 0 <= k < i :: parts[|assignments| + 1 + k] == Quote(args[k])
    {
      parts := parts + [Quote(args[i])];
    }
    assert parts == Parts(env, name, args);
    line := JoinParts(parts);
    if dir != "" {
      line := "cd " + Quote(dir) + " && " + line;
    }
  }

  method JoinParts(parts: seq<string>) returns (line: string)
    ensures line == Join(parts)
  {
    if |parts| == 0 {
      return "";
    }
    var i := |parts| - 1;
    line := parts[i];
    while i > 0
      invariant 0 <= i < |parts|
      invariant line == Join(parts[i..])
    {
      i := i - 1;
      assert parts[i..][1..] == parts[i + 1..];
      line := parts[i] + " " + line;
    }
    assert parts[0..] == parts;
  }

  // ------------------------------------------------------------------- names

  /** What is known of a word's start after the unquoted characters `k`. */
  function TrackAll(st: Start, cur: string, k: string): Start
    decreases |k|
  {
    if k == [] then st else TrackAll(Track(st, cur, k[0]), cur + [k[0]], k[1..])
  }

  lemma {:induction false} PlainReads(k: string, rest: string, cur: string, st: Start)
    requires forall i | 0 <= i < |k| :: IsPlain(k[i])
    ensures Read(k + rest, InWord(cur, st)) == Read(rest, InWord(cur + k, TrackAll(st, cur, k)))
    decreases |k|
  {
    if k == [] {
      assert k + rest == rest && cur + k == cur;
    } else {
      assert (k + rest)[1..] == k[1..] + rest;
      PlainReads(k[1..], rest, cur + [k[0]], Track(st, cur, k[0]));
      assert cur + [k[0]] + k[1..] == cur + k;
    }
  }

  /** A valid variable name: letters, digits and "_", not starting with a digit. */
  predicate ValidName(n: string) {
    n != "" && !IsDigit(n[0]) && forall i | 0 <= i < |n| :: IsLetter(n[i]) || IsDigit(n[i])
  }

  lemma {:induction false} TrackDecided(st: Start, cur: string, k: string)
    requires !st.Naming?
    ensures TrackAll(st, cur, k) == st
    decreases |k|
  {
    if k != [] {
      TrackDecided(st, cur + [k[0]], k[1..]);
    }
  }

  /** Reading on behind a name `cur` (or nothing): the "=" that ends `n` makes an
      assignment exactly when all of it is a valid name. */
  lemma {:induction false} TrackName(cur: string, n: string)
    requires cur == "" || ValidName(cur)
    requires cur + n != "" && forall i | 0 <= i < |n| :: n[i] != '='
    ensures TrackAll(Naming, cur, n + "=") == if ValidName(cur + n) then Named(|cur + n|) else Other
    decreases |n|
  {
    var text := n + "=";
    if n == [] {
      assert text == "=" && cur + n == cur && text[1..] == [];
      assert TrackAll(Named(|cur|), cur + ['='], []) == Named(|cur|);
    } else {
      var c, cur' := n[0], cur + [n[0]];
      assert text[0] == c && text[1..] == n[1..] + "=";
      assert cur' + n[1..] == cur + n;
      if Track(Naming, cur, c).Naming? {
        TrackName(cur', n[1..]);
      } else {
        TrackDecided(Other, cur', n[1..] + "=");
        assert (cur + n)[|cur|] == c;
        assert !ValidName(cur + n);
      }
    }
  }

  /** The name of an entry is made of ordinary characters. */
  predicate PlainName(e: string) {
    forall i | 0 <= i < EqualsAt(e) :: IsPlain(e[i])
  }

  function NameOf(e: string): string {
    e[..EqualsAt(e)]
  }

  /** The word an entry is read back as. */
  function EntryWord(e: string): Token {
    Word(e, if ValidName(NameOf(e)) then Some(EqualsAt(e)) else None)
  }

  /** An entry whose name is made of ordinary characters is read back as itself; it is
      an assignment exactly when the name is a valid one. */
  lemma AssignmentReadsAs(e: string)
    requires IsAssignment(e) && PlainName(e) && NoNul(e)
    ensures ReadsAs(Assignment(e), EntryWord(e))
  {
    var k := EqualsAt(e);
    var name, value := e[..k] + "=", e[k + 1..];
    assert name + value == e;
    TrackName("", e[..k]);
    assert "" + e[..k] == e[..k];
    forall rest: string ensures Read(Assignment(e) + rest, Between) == Read(rest, InWord(e, StartOf(EntryWord(e)))) {
      NameThenQuote(name, value, rest);
    }
  }

  lemma NameThenQuote(name: string, value: string, rest: string)
    requires name != [] && (forall i | 0 <= i < |name| :: IsPlain(name[i])) && NoNul(value)
    ensures Read(name + Quote(value) + rest, Between)
            == Read(rest, InWord(name + value, Broken(TrackAll(Naming, "", name))))
  {
    var tail := Quote(value) + rest;
    var first, others := [name[0]], name[1..];
    assert name == first + others;
    ConcatAssociates(name, Quote(value), rest);
    ConcatAssociates(first, others, tail);
    ConcatSplits(first, others + tail);
    StartsWord(name[0], others + tail);
    PlainReads(others, tail, first, Track(Naming, "", name[0]));
    assert "" + first == first;
    QuoteReads(value, rest, name, TrackAll(Naming, "", name));
  }

  lemma StartsWord(c: char, t: string)
    requires IsPlain(c)
    ensures Read([c] + t, Between) == Read(t, InWord([c], Track(Naming, "", c)))
  {
    assert ([c] + t)[1..] == t;
  }

  lemma QuoteReadsAs(s: string)
    requires NoNul(s)
    ensures ReadsAs(Quote(s), Word(s, None))
  {
    forall rest: string ensures Read(Quote(s) + rest, Between) == Read(rest, InWord(s, Other)) {
      QuoteReads(s, rest, "", Other);
    }
  }

  // ---------------------------------------------------------- reading it back

  function EntryWords(env: seq<string>): seq<Token> {
    seq(|Kept(env)|, i requires 0 <= i < |Kept(env)| => EntryWord(Kept(env)[i]))
  }

  function PlainWords(ws: seq<string>): seq<Token> {
    seq(|ws|, i requires 0 <= i < |ws| => Word(ws[i], None))
  }

  function LineWords(env: seq<string>, name: string, args: seq<string>): seq<Token> {
    EntryWords(env) + PlainWords([name] + args)
  }

  /** No NUL anywhere, and names of ordinary characters in the entries that are kept. */
  ghost predicate Readable(dir: string, env: seq<string>, name: string, args: seq<string>) {
    && NoNul(dir) && NoNul(name) && (forall i | 0 <= i < |args| :: NoNul(args[i]))
    && forall i | 0 <= i < |Kept(env)| :: NoNul(Kept(env)[i]) && PlainName(Kept(env)[i])
  }

  lemma PartReads(env: seq<string>, name: string, args: seq<string>, i: nat)
    requires Readable("", env, name, args) && i < |Parts(env, name, args)|
    ensures |Parts(env, name, args)| == |LineWords(env, name, args)|
    ensures ReadsAs(Parts(env, name, args)[i], LineWords(env, name, args)[i])
  {
    KeptAreAssignments(env);
    var n := |Kept(env)|;
    if i < n {
      AssignmentReadsAs(Kept(env)[i]);
    } else if i == n {
      QuoteReadsAs(name);
    } else {
      QuoteReadsAs(args[i - n - 1]);
    }
  }

  lemma PartsRead(env: seq<string>, name: string, args: seq<string>)
    requires Readable("", env, name, args)
    ensures Read(Join(Parts(env, name, args)), Between) == Some(LineWords(env, name, args))
  {
    var parts, ws := Parts(env, name, args), LineWords(env, name, args);
    PartReads(env, name, args, 0);
    forall i | 0 <= i < |parts| ensures ReadsAs(parts[i], ws[i]) {
      PartReads(env, name, args, i);
    }
    JoinReads(parts, ws);
  }

  /** The assignments an environment asks for. */
  function Pairs(env: seq<string>): seq<(string, string)> {
    KeptAreAssignments(env);
    seq(|Kept(env)|, i requires 0 <= i < |Kept(env)| => (NameOf(Kept(env)[i]), Kept(env)[i][EqualsAt(Kept(env)[i]) + 1..]))
  }

  /** The entry has "=", and not as its first character. */
  ghost predicate HasName(e: string) {
    '=' in e && e[0] != '='
  }

  ghost predicate Increasing(at: seq<nat>) {
    forall i, j | 0 <= i < j < |at| :: at[i] < at[j]
  }

  /** The assignments asked for are the entries with a name before their first "=", in
      the order of the environment. */
  lemma {:induction false} PairsOf(env: seq<string>) returns (at: seq<nat>)
    ensures Increasing(at) && forall k | 0 <= k < |env| :: k in at <==> HasName(env[k])
    ensures |at| == |Kept(env)| == |Pairs(env)|
    ensures forall i | 0 <= i < |at| ::
              && at[i] < |env| && env[at[i]] == Kept(env)[i] == Pairs(env)[i].0 + "=" + Pairs(env)[i].1
              && Pairs(env)[i].0 != "" && '=' !in Pairs(env)[i].0
    decreases |env|
  {
    at := [];
    if env != [] {
      var n := |env| - 1;
      var front := PairsOf(env[..n]);
      at := front;
      var e, k := env[n], EqualsAt(env[n]);
      if IsAssignment(e) {
        at := front + [n];
        assert e == e[..k] + "=" + e[k + 1..];
      }
      assert HasName(e) <==> IsAssignment(e);
    }
  }

  ghost predicate ValidNames(env: seq<string>) {
    forall i | 0 <= i < |Kept(env)| :: ValidName(NameOf(Kept(env)[i]))
  }

  ghost predicate AllWords(ts: seq<Token>) {
    forall i | 0 <= i < |ts| :: ts[i].Word?
  }

  lemma {:induction false} AddAllConcat(c: Command, a: seq<Token>, b: seq<Token>)
    requires AllWords(a) && AllWords(b)
    ensures AllWords(a + b) && AddAll(c, a + b) == AddAll(AddAll(c, a), b)
    decreases |a|
  {
    if a == [] {
      assert a + b == b;
    } else {
      assert (a + b)[1..] == a[1..] + b;
      AddAllConcat(Add(c, a[0]), a[1..], b);
    }
  }

  lemma {:induction false} AddPlain(c: Command, ws: seq<string>)
    ensures AddAll(c, PlainWords(ws)) == c.(words := c.words + ws)
    decreases |ws|
  {
    if ws == [] {
      assert c.words + ws == c.words;
    } else {
      var c' := c.(words := c.words + [ws[0]]);
      assert PlainWords(ws)[1..] == PlainWords(ws[1..]);
      AddPlain(c', ws[1..]);
      assert c.words + [ws[0]] + ws[1..] == c.words + ws;
    }
  }

  /** Leading entries with valid names all become assignments. */
  lemma {:induction false} AddEntries(before: seq<(string, string)>, ts: seq<Token>, pairs: seq<(string, string)>)
    requires AllWords(ts) && |ts| == |pairs|
    requires forall i | 0 <= i < |ts| ::
               && ts[i].eq.Some? && ts[i].eq.value < |ts[i].text|
               && pairs[i] == (ts[i].text[..ts[i].eq.value], ts[i].text[ts[i].eq.value + 1..])
    ensures AddAll(Command(before, []), ts) == Command(before + pairs, [])
    decreases |ts|
  {
    if ts == [] {
      assert before + pairs == before;
    } else {
      AddEntries(before + [pairs[0]], ts[1..], pairs[1..]);
      assert before + [pairs[0]] + pairs[1..] == before + pairs;
    }
  }

  /** With valid names the words of a line make the command that was asked for. */
  lemma LineWordsRun(env: seq<string>, name: string, args: seq<string>)
    requires ValidNames(env)
    ensures AllWords(LineWords(env, name, args))
    ensures AddAll(NO_COMMAND, LineWords(env, name, args)) == Command(Pairs(env), [name] + args)
  {
    var entries, words := EntryWords(env), PlainWords([name] + args);
    KeptAreAssignments(env);
    AddAllConcat(NO_COMMAND, entries, words);
    AddEntries([], entries, Pairs(env));
    assert [] + Pairs(env) == Pairs(env);
    AddPlain(Command(Pairs(env), []), [name] + args);
    assert [] + ([name] + args) == [name] + args;
  }

  /** What the caller of RunCmdEnv asks for. */
  function Asked(dir: string, env: seq<string>, name: string, args: seq<string>): seq<Command> {
    (if dir != "" then [Command([], ["cd", dir])] else []) + [Command(Pairs(env), [name] + args)]
  }

  /** No NUL anywhere; entries that are skipped do not matter. */
  ghost predicate Clean(dir: string, env: seq<string>, name: string, args: seq<string>) {
    && NoNul(dir) && NoNul(name) && (forall i | 0 <= i < |args| :: NoNul(args[i]))
    && forall i | 0 <= i < |Kept(env)| :: NoNul(Kept(env)[i])
  }

  /** With valid names, or no environment at all, the line is read back exactly. */
  lemma RemoteReadsBack(dir: string, env: seq<string>, name: string, args: seq<string>)
    requires Clean(dir, env, name, args) && ValidNames(env)
    ensures Commands(Remote(dir, env, name, args)) == Some(Asked(dir, env, name, args))
  {
    forall i | 0 <= i < |Kept(env)| ensures PlainName(Kept(env)[i]) {
      var e := Kept(env)[i];
      assert ValidName(NameOf(e)) && forall j | 0 <= j < EqualsAt(e) :: NameOf(e)[j] == e[j];
    }
    var line, ws := Join(Parts(env, name, args)), LineWords(env, name, args);
    PartsRead(env, name, args);
    LineWordsRun(env, name, args);
    ParseWords(ws, NO_COMMAND);
    if dir == "" {
      assert [] + [Command(Pairs(env), [name] + args)] == [Command(Pairs(env), [name] + args)];
    } else {
      ChangeDirReads(dir, line, ws);
      ChangeDirParses(dir, ws);
    }
  }

  // ------------------------------------------- only valid names are assigned to

  /** What a word's start is known to be agrees with what was read. */
  ghost predicate StartOk(cur: string, st: Start) {
    match st
    case Naming => cur == "" || ValidName(cur)
    case Named(k) => k < |cur| && ValidName(cur[..k])
    case Other => true
  }

  lemma QuotedOk(cur: string, st: Start, c: char)
    requires StartOk(cur, st) && !st.Naming?
    ensures StartOk(cur + [c], st)
  {
    if st.Named? {
      assert (cur + [c])[..st.at] == cur[..st.at];
    }
  }

  lemma TrackOk(cur: string, st: Start, c: char)
    requires StartOk(cur, st)
    ensures StartOk(cur + [c], Track(st, cur, c)) && StartOk(cur, Broken(st)) && StartOk(cur + [c], Broken(st))
  {
    var cur' := cur + [c];
    if st.Named? {
      assert cur'[..st.at] == cur[..st.at];
    } else {
      assert cur'[..|cur|] == cur;
    }
  }

  ghost predicate TokenOk(w: Token) {
    w.Word? && w.eq.Some? ==> w.eq.value < |w.text| && ValidName(w.text[..w.eq.value])
  }

  ghost predicate ModeOk(mode: Mode) {
    (!mode.Between? ==> StartOk(mode.cur, mode.st)) && (mode.InQuote? ==> !mode.st.Naming?)
  }

  ghost predicate TokensOk(r: Option<seq<Token>>) {
    r.Some? ==> forall i | 0 <= i < |r.value| :: TokenOk(r.value[i])
  }

  lemma ConsOk(t: Token, r: Option<seq<Token>>)
    requires TokenOk(t) && TokensOk(r)
    ensures TokensOk(Cons(t, r))
  {
  }

  /** The words and operators of any line: "=" makes an assignment only behind a valid name. */
  lemma {:induction false} ReadNames(s: string, mode: Mode)
    requires ModeOk(mode)
    ensures TokensOk(Read(s, mode))
    decreases |s|, if mode.InWord? then 3 else 1
  {
    match mode
    case InQuote(cur, st) => ReadNamesQuoted(s, cur, st);
    case InWord(cur, st) =>
      if s != [] && (s[0] == ' ' || s[0] == '&') {
        ReadNames(s, Between);
        ConsOk(WordOf(cur, st), Read(s, Between));
      } else if s != [] {
        ReadNamesInWord(s, cur, st);
      }
    case Between => ReadNamesBetween(s);
  }

  lemma {:induction false} ReadNamesQuoted(s: string, cur: string, st: Start)
    requires StartOk(cur, st) && !st.Naming?
    ensures TokensOk(Read(s, InQuote(cur, st)))
    decreases |s|, 0
  {
    if s != [] && s[0] != '\0' {
      if s[0] == '\'' {
        ReadNames(s[1..], InWord(cur, st));
      } else {
        QuotedOk(cur, st, s[0]);
        ReadNames(s[1..], InQuote(cur + [s[0]], st));
      }
    }
  }

  lemma {:induction false} ReadNamesInWord(s: string, cur: string, st: Start)
    requires StartOk(cur, st) && s != [] && s[0] != ' ' && s[0] != '&'
    ensures TokensOk(Read(s, InWord(cur, st)))
    decreases |s|, 2
  {
    if s[0] == '\'' {
      TrackOk(cur, st, s[0]);
      ReadNames(s[1..], InQuote(cur, Broken(st)));
    } else if s[0] == '\\' {
      if |s| >= 2 && s[1] != '\0' {
        TrackOk(cur, st, s[1]);
        ReadNames(s[2..], if s[1] == '\n' then InWord(cur, st) else InWord(cur + [s[1]], Broken(st)));
      }
    } else if IsPlain(s[0]) {
      TrackOk(cur, st, s[0]);
      ReadNames(s[1..], InWord(cur + [s[0]], Track(st, cur, s[0])));
    }
  }

  lemma {:induction false} ReadNamesBetween(s: string)
    ensures TokensOk(Read(s, Between))
    decreases |s|, 0
  {
    if s == [] {
    } else if s[0] == ' ' {
      ReadNames(s[1..], Between);
    } else if s[0] == '&' {
      if |s| > 1 && s[1] == '&' {
        ReadNames(s[2..], Between);
        ConsOk(AndIf, Read(s[2..], Between));
      }
    } else if s[0] == '\'' {
      ReadNames(s[1..], InQuote("", Other));
    } else if s[0] == '\\' {
      if |s| >= 2 && s[1] != '\0' {
        ReadNames(s[2..], if s[1] == '\n' then Between else InWord([s[1]], Other));
      }
    } else if IsPlain(s[0]) {
      TrackOk("", Naming, s[0]);
      assert "" + [s[0]] == [s[0]];
      ReadNames(s[1..], InWord([s[0]], Track(Naming, "", s[0])));
    }
  }

  ghost predicate CommandOk(c: Command) {
    forall i | 0 <= i < |c.assigns| :: ValidName(c.assigns[i].0)
  }

  lemma {:induction false} ParseNames(ts: seq<Token>, c: Command)
    requires CommandOk(c) && forall i | 0 <= i < |ts| :: TokenOk(ts[i])
    ensures forall i | 0 <= i < |Parse(ts, c)| :: CommandOk(Parse(ts, c)[i])
    decreases |ts|
  {
    if ts != [] {
      assert TokenOk(ts[0]);
      ParseNames(ts[1..], if ts[0].AndIf? then NO_COMMAND else Add(c, ts[0]));
    }
  }

  /** Whatever the line, a shell assigns only to valid names. */
  lemma OnlyValidNamesAssigned(line: string)
    requires Commands(line).Some?
    ensures forall i | 0 <= i < |Commands(line).value| :: CommandOk(Commands(line).value[i])
  {
    ReadNames(line, Between);
    ParseNames(Read(line, Between).value, NO_COMMAND);
  }

  /**
   For every directory, command name, argument list and environment without NUL: a
   shell runs the remote line as exactly the directory change and the command with its
   assignments, name and arguments, if and only if the names of the entries that are
   kept are valid variable names.
   */
  lemma RemoteReadsBackIff(dir: string, env: seq<string>, name: string, args: seq<string>)
    requires Clean(dir, env, name, args)
    ensures Commands(Remote(dir, env, name, args)) == Some(Asked(dir, env, name, args)) <==> ValidNames(env)
  {
    if ValidNames(env) {
      RemoteReadsBack(dir, env, name, args);
    } else if Commands(Remote(dir, env, name, args)) == Some(Asked(dir, env, name, args)) {
      OnlyValidNamesAssigned(Remote(dir, env, name, args));
      var asked := Asked(dir, env, name, args);
      assert CommandOk(asked[|asked| - 1]) && asked[|asked| - 1].assigns == Pairs(env);
      forall i | 0 <= i < |Kept(env)| ensures ValidName(NameOf(Kept(env)[i])) {
        assert Pairs(env)[i].0 == NameOf(Kept(env)[i]);
      }
    }
  }

  lemma OneEntryKept(e: string)
    requires IsAssignment(e)
    ensures Kept([e]) == [e]
  {
    assert [e][..0] == [];
  }

  lemma InvalidEntryWords(e: string, name: string, args: seq<string>)
    requires IsAssignment(e) && !ValidName(NameOf(e))
    ensures LineWords([e], name, args) == PlainWords([e] + ([name] + args))
  {
    OneEntryKept(e);
  }

  /** An entry alone whose name is made of ordinary characters but not valid is run as
      the command. */
  lemma InvalidEntryRuns(e: string, name: string, args: seq<string>)
    requires IsAssignment(e) && PlainName(e) && NoNul(e) && !ValidName(NameOf(e))
    requires NoNul(name) && forall i | 0 <= i < |args| :: NoNul(args[i])
    ensures Commands(Remote("", [e], name, args)) == Some([Command([], [e] + ([name] + args))])
  {
    var ws := [e] + ([name] + args);
    OneEntryKept(e);
    PartsRead([e], name, args);
    InvalidEntryWords(e, name, args);
    AddPlain(NO_COMMAND, ws);
    ParseWords(PlainWords(ws), NO_COMMAND);
    assert [] + ws == ws;
  }

  /** The other case happens, for instance with a name that holds a dot. */
  lemma DottedNameExample(name: string, args: seq<string>)
    requires NoNul(name) && forall i | 0 <= i < |args| :: NoNul(args[i])
    ensures Commands(Remote("", ["a.b=1"], name, args)) == Some([Command([], ["a.b=1"] + ([name] + args))])
    ensures Commands(Remote("", ["a.b=1"], name, args)) != Some(Asked("", ["a.b=1"], name, args))
  {
    var e := "a.b=1";
    DottedEntry();
    InvalidEntryRuns(e, name, args);
    OneEntryKept(e);
    assert !ValidName(NameOf(Kept([e])[0]));
    RemoteReadsBackIff("", [e], name, args);
  }

  lemma DottedEntry()
    ensures var e := "a.b=1"; IsAssignment(e) && PlainName(e) && NoNul(e) && !ValidName(NameOf(e))
  {
    var e := "a.b=1";
    assert e[1..] == ".b=1" && ".b=1"[1..] == "b=1" && "b=1"[1..] == "=1";
    assert EqualsAt("b=1") == 1 && EqualsAt(".b=1") == 2 && EqualsAt(e) == 3;
    assert NameOf(e)[1] == '.';
  }

  lemma AfterBlank(t: string, cur: string, st: Start)
    ensures Read(" " + t, InWord(cur, st)) == Cons(WordOf(cur, st), Read(t, Between))
  {
    assert (" " + t)[1..] == t;
  }

  lemma AfterAndIf(t: string)
    ensures Read("&& " + t, Between) == Cons(AndIf, Read(t, Between))
  {
    assert ("&& " + t)[2..] == " " + t && (" " + t)[1..] == t;
  }

  lemma AfterCd(t: string)
    ensures Read("cd" + t, Between) == Read(t, InWord("cd", Naming))
  {
    assert "cd" + t == ['c'] + ("d" + t);
    StartsWord('c', "d" + t);
    assert ("d" + t)[0] == 'd' && ("d" + t)[1..] == t;
    assert Track(Naming, "", 'c') == Naming && Track(Naming, ['c'], 'd') == Naming;
    assert IsPlain('d') && ['c'] + ['d'] == "cd";
    assert Read("d" + t, InWord(['c'], Naming)) == Read(t, InWord(['c'] + ['d'], Naming));
  }

  lemma Assembled(q: string, line: string)
    ensures "cd " + q + " && " + line == "cd" + (" " + (q + (" " + ("&& " + line))))
  {
    assert "cd " == "cd" + " " && " && " == " " + "&& ";
  }

  lemma ChangeDirReads(dir: string, line: string, ws: seq<Token>)
    requires NoNul(dir) && Read(line, Between) == Some(ws)
    ensures Read("cd " + Quote(dir) + " && " + line, Between) == Some([Word("cd", None), Word(dir, None), AndIf] + ws)
  {
    var tail := " " + ("&& " + line);
    AfterAndIf(line);
    AfterBlank("&& " + line, dir, Other);
    QuoteReads(dir, tail, "", Other);
    AfterBlank(Quote(dir) + tail, "cd", Naming);
    AfterCd(" " + (Quote(dir) + tail));
    Assembled(Quote(dir), line);
    assert [Word("cd", None)] + ([Word(dir, None)] + ([AndIf] + ws)) == [Word("cd", None), Word(dir, None), AndIf] + ws;
  }

  lemma ChangeDirParses(dir: string, ws: seq<Token>)
    ensures Parse([Word("cd", None), Word(dir, None), AndIf] + ws, NO_COMMAND) == [Command([], ["cd", dir])] + Parse(ws, NO_COMMAND)
  {
    var ts := [Word("cd", None), Word(dir, None), AndIf] + ws;
    var ts1, ts2 := [Word(dir, None), AndIf] + ws, [AndIf] + ws;
    assert ts[1..] == ts1 && ts1[1..] == ts2 && ts2[1..] == ws;
    assert [] + ["cd"] == ["cd"] && ["cd"] + [dir] == ["cd", dir];
    var c1, c2 := Command([], ["cd"]), Command([], ["cd", dir]);
    assert Add(NO_COMMAND, ts[0]) == c1 && Add(c1, ts1[0]) == c2;
    assert Parse(ts2, c2) == [c2] + Parse(ws, NO_COMMAND);
    assert Parse(ts1, c1) == Parse(ts2, c2);
  }
}
