/**
  The statement splitter of `old_data/mysql_dump_to_sqlite.py`
  (`split_sql_statements`): one pass over the text, character by character,
  with a lexical mode (normal, single-quoted, double-quoted, backtick-quoted)
  and an escape flag set by a backslash; a `;` seen in normal mode and not
  escaped ends a statement.

  `Chunks` is the reference scan: it cuts the text into raw pieces, each
  ending with a statement-ending `;`, followed by the leftover after the last.
  `Split` strips the pieces and drops the empty ones. `SplitSqlStatements`
  is the source's loop, proved to compute `Split`.
*/
module Splitter {
  import opened Text

  datatype Mode = Normal | InSingle | InDouble | InBacktick

  /** The lexical mode and the escape flag (`escape` in the source). */
  datatype ScanState = ScanState(mode: Mode, escape: bool)

  const Start := ScanState(Normal, false)

  /** `ch`, read in state `st`, ends the current statement. */
  predicate EndsStatement(st: ScanState, ch: char) {
    !st.escape && st.mode == Normal && ch == ';'
  }

  /** The scanner's state after reading `ch` in state `st`. */
  function Step(st: ScanState, ch: char): ScanState {
    if st.escape then st.(escape := false)
    else if ch == '\\' then st.(escape := true)
    else
      match st.mode
      case InSingle => if ch == '\'' then Start else st
      case InDouble => if ch == '"' then Start else st
      case InBacktick => if ch == '`' then Start else st
      case Normal =>
        if ch == '\'' then ScanState(InSingle, false)
        else if ch == '"' then ScanState(InDouble, false)
        else if ch == '`' then ScanState(InBacktick, false)
        else st
  }

  /** The scanner's state after reading all of `s` from state `st`. */
  function Run(st: ScanState, s: string): ScanState
    decreases |s|
  {
    if s == [] then st else Step(Run(st, s[..|s| - 1]), s[|s| - 1])
  }

  /** Character `j` of `c` ends a statement when `c` is read from `Start`. */
  ghost predicate EndsAt(c: string, j: nat)
    requires j < |c|
  {
    EndsStatement(Run(Start, c[..j]), c[j])
  }

  /** No character of `c[..n]` ends a statement when `c` is read from `Start`. */
  ghost predicate NoEndBefore(c: string, n: nat)
    requires n <= |c|
  {
    forall j :: 0 <= j < n ==> !EndsAt(c, j)
  }

  /** A piece cut at a statement-ending `;`: its last character, and only that one, ends it. */
  ghost predicate IsStatementChunk(c: string) {
    c != [] && NoEndBefore(c, |c| - 1) && EndsAt(c, |c| - 1)
  }

  /** The leftover after the last statement-ending `;`: nothing in it ends a statement. */
  ghost predicate IsTailChunk(c: string) {
    NoEndBefore(c, |c|)
  }

  /** `r` cuts `text` into pieces: each but the last ends at a statement-ending `;`, the last holds none. */
  ghost predicate CutInto(r: seq<string>, text: string) {
    |r| >= 1 && Concat(r) == text &&
    (forall j :: 0 <= j < |r| - 1 ==> IsStatementChunk(r[j])) &&
    IsTailChunk(r[|r| - 1])
  }

  function Concat(chunks: seq<string>): string
    decreases |chunks|
  {
    if chunks == [] then [] else chunks[0] + Concat(chunks[1..])
  }

  /**
    The reference scan: `current` is the text of the statement read so far
    (read from `Start` up to state `st`), `rest` the text still to read.
    The pieces partition `current + rest`; every piece but the last is cut
    at a statement-ending `;`, and the last holds none.
  */
  function Chunks(st: ScanState, current: string, rest: string): (r: seq<string>)
    ensures |r| >= 1
    decreases |rest|
  {
    if rest == [] then [current]
    else
      var ch := rest[0];
      if EndsStatement(st, ch) then [current + [ch]] + Chunks(Start, [], rest[1..])
      else Chunks(Step(st, ch), current + [ch], rest[1..])
  }

  /** Extending a prefix by one character extends the scanner's run by one step. */
  lemma RunSnoc(c: string, ch: char)
    ensures Run(Start, c + [ch]) == Step(Run(Start, c), ch)
    ensures forall j :: 0 <= j <= |c| ==> (c + [ch])[..j] == c[..j]
  {
    assert (c + [ch])[..|c|] == c;
  }

  /**
    The pieces partition `current + rest`; every piece but the last is cut
    at a statement-ending `;`, and the last holds none.
  */
  lemma {:induction false} ChunksShape(st: ScanState, current: string, rest: string)
    requires Run(Start, current) == st && NoEndBefore(current, |current|)
    ensures CutInto(Chunks(st, current, rest), current + rest)
    decreases |rest|
  {
    if rest == [] {
      assert Concat([current]) == current;
    } else {
      var ch := rest[0];
      if EndsStatement(st, ch) {
        NoEndBeforeEmpty();
        ChunksShape(Start, [], rest[1..]);
        ChunksShapeCut(st, current, rest);
      } else {
        var next := current + [ch];
        RunSnoc(current, ch);
        NoEndBeforeExtend(current, ch);
        ChunksShape(Step(st, ch), next, rest[1..]);
        ChunksAtStep(st, current, rest);
        CutIntoSame(Chunks(Step(st, ch), next, rest[1..]), next + rest[1..], Chunks(st, current, rest), current + rest);
      }
    }
  }

  /** One more character that does not end the statement keeps the prefix free of ends. */
  lemma NoEndBeforeExtend(current: string, ch: char)
    requires NoEndBefore(current, |current|)
    requires !EndsStatement(Run(Start, current), ch)
    ensures NoEndBefore(current + [ch], |current| + 1)
  {
    var next := current + [ch];
    NoEndBeforeLonger(current, ch);
    assert next[..|current|] == current;
  }

  /** Text free of ends stays free of them as the prefix of a longer text. */
  lemma NoEndBeforeLonger(current: string, ch: char)
    requires NoEndBefore(current, |current|)
    ensures NoEndBefore(current + [ch], |current|)
  {
    var next := current + [ch];
    forall j | 0 <= j < |current| ensures !EndsAt(next, j) {
      assert !EndsAt(current, j);
      assert next[j] == current[j] && next[..j] == current[..j];
    }
  }

  /** The shape at a cut: the statement-ending piece, then the pieces of what follows. */
  lemma ChunksShapeCut(st: ScanState, current: string, rest: string)
    requires rest != [] && Run(Start, current) == st && EndsStatement(st, rest[0])
    requires NoEndBefore(current, |current|)
    requires CutInto(Chunks(Start, [], rest[1..]), rest[1..])
    ensures CutInto(Chunks(st, current, rest), current + rest)
  {
    var ch := rest[0];
    var tail := Chunks(Start, [], rest[1..]);
    ChunkCutStep(current, ch, tail, rest[1..]);
    ChunksAtCut(st, current, rest);
    CutIntoSame([current + [ch]] + tail, current + [ch] + rest[1..], Chunks(st, current, rest), current + rest);
  }

  /** Where the scan cuts: the piece so far with its `;`, then the pieces of the rest. */
  lemma ChunksAtCut(st: ScanState, current: string, rest: string)
    requires rest != [] && EndsStatement(st, rest[0])
    ensures Chunks(st, current, rest) == [current + [rest[0]]] + Chunks(Start, [], rest[1..])
    ensures current + rest == current + [rest[0]] + rest[1..]
  {
    assert rest == [rest[0]] + rest[1..];
  }

  /** Away from a cut: the character joins the piece and the scan steps on. */
  lemma ChunksAtStep(st: ScanState, current: string, rest: string)
    requires rest != [] && !EndsStatement(st, rest[0])
    ensures Chunks(st, current, rest) == Chunks(Step(st, rest[0]), current + [rest[0]], rest[1..])
    ensures current + rest == current + [rest[0]] + rest[1..]
  {
    assert rest == [rest[0]] + rest[1..];
  }

  /** A piece ended by `ch`, in front of well-formed pieces of `text`. */
  lemma ChunkCutStep(current: string, ch: char, tail: seq<string>, text: string)
    requires NoEndBefore(current, |current|) && EndsStatement(Run(Start, current), ch)
    requires CutInto(tail, text)
    ensures CutInto([current + [ch]] + tail, current + [ch] + text)
  {
    CutChunk(current, ch);
    PiecesCons(current + [ch], tail, text);
  }

  /** Equal pieces of equal text: stated once so the cut above is not re-derived. */
  lemma CutIntoSame(r: seq<string>, text: string, r': seq<string>, text': string)
    requires CutInto(r, text) && r == r' && text == text'
    ensures CutInto(r', text')
  {
  }

  /** The text read so far, with the `;` that ends it, is a statement-ending piece. */
  lemma CutChunk(current: string, ch: char)
    requires NoEndBefore(current, |current|) && EndsStatement(Run(Start, current), ch)
    ensures IsStatementChunk(current + [ch])
  {
    var next := current + [ch];
    assert next[..|next| - 1] == current;
    NoEndBeforeLonger(current, ch);
  }

  /** A statement-ending piece in front of well-formed pieces gives well-formed pieces. */
  lemma PiecesCons(next: string, tail: seq<string>, text: string)
    requires IsStatementChunk(next) && CutInto(tail, text)
    ensures CutInto([next] + tail, next + text)
  {
    var r := [next] + tail;
    assert r[1..] == tail;
    assert r[|r| - 1] == tail[|tail| - 1];
    forall j | 0 <= j < |r| - 1 ensures IsStatementChunk(r[j]) {
      if j > 0 { assert r[j] == tail[j - 1]; }
    }
  }

  /** One character through the reference scan. */
  lemma ChunksStep(st: ScanState, current: string, ch: char, rest: string)
    ensures Chunks(st, current, [ch] + rest) ==
      if EndsStatement(st, ch) then [current + [ch]] + Chunks(Start, [], rest)
      else Chunks(Step(st, ch), current + [ch], rest)
  {
    assert ([ch] + rest)[0] == ch && ([ch] + rest)[1..] == rest;
  }

  /** A statement as the splitter emits it: non-empty, no whitespace at either end. */
  predicate IsTrimmedStatement(s: string) {
    s != [] && !IsSpace(s[0]) && !IsSpace(s[|s| - 1])
  }

  /** A raw piece, stripped, if anything is left of it (`if statement: statements.append(...)`). */
  function Emit(chunk: string): (r: seq<string>)
    ensures |r| <= 1
    ensures forall k :: 0 <= k < |r| ==> IsTrimmedStatement(r[k])
    ensures |r| == 0 <==> AllSpace(chunk)
  {
    var s := Strip(chunk);
    if s == [] then [] else [s]
  }

  /** The emitted statements of a sequence of pieces, in order. */
  function Statements(chunks: seq<string>): (r: seq<string>)
    ensures |r| <= |chunks|
    decreases |chunks|
  {
    if chunks == [] then [] else Emit(chunks[0]) + Statements(chunks[1..])
  }

  /** Every emitted statement is non-empty and carries no whitespace at either end. */
  lemma {:induction false} StatementsTrimmed(chunks: seq<string>)
    ensures forall k :: 0 <= k < |Statements(chunks)| ==> IsTrimmedStatement(Statements(chunks)[k])
    decreases |chunks|
  {
    if chunks != [] {
      StatementsTrimmed(chunks[1..]);
      var head := Emit(chunks[0]);
      var tail := Statements(chunks[1..]);
      forall k | 0 <= k < |head + tail| ensures IsTrimmedStatement((head + tail)[k]) {
        if k >= |head| { assert (head + tail)[k] == tail[k - |head|]; }
      }
    }
  }

  /** When every piece but the last ends with `;`, every statement but possibly the last does too. */
  lemma {:induction false} StatementsSemicolons(chunks: seq<string>)
    requires forall j :: 0 <= j < |chunks| - 1 ==> EndsWith(chunks[j], ";")
    ensures forall k :: 0 <= k < |Statements(chunks)| - 1 ==> EndsWith(Statements(chunks)[k], ";")
    decreases |chunks|
  {
    if chunks != [] {
      var head := Emit(chunks[0]);
      var tail := Statements(chunks[1..]);
      StatementsSemicolons(chunks[1..]);
      if |chunks| > 1 {
        EmitKeepsSemicolon(chunks[0]);
      }
      forall k | 0 <= k < |head + tail| - 1 ensures EndsWith((head + tail)[k], ";") {
        if k >= |head| { assert (head + tail)[k] == tail[k - |head|]; }
      }
    }
  }

  lemma EmitKeepsSemicolon(chunk: string)
    ensures EndsWith(chunk, ";") ==> |Emit(chunk)| == 1 && EndsWith(Emit(chunk)[0], ";")
  {
    if EndsWith(chunk, ";") {
      EmitKeepsSemicolonCase(chunk);
    }
  }

  lemma EmitKeepsSemicolonCase(chunk: string)
    requires EndsWith(chunk, ";")
    ensures |Emit(chunk)| == 1 && EndsWith(Emit(chunk)[0], ";")
  {
    var lo := LeadingSpaces(chunk);
    var s := Strip(chunk);
    StripIsSlice(chunk);
    assert !AllSpace(chunk) by { assert chunk[|chunk| - 1] == ';'; }
    assert s[|s| - 1] == chunk[|chunk| - 1];
  }

  /** `split_sql_statements`: the statements of the whole text. */
  function Split(text: string): seq<string> {
    Statements(Chunks(Start, [], text))
  }

  /** The pieces of a whole text, read from the start. */
  function TextChunks(text: string): seq<string> {
    Chunks(Start, [], text)
  }

  /** Every statement is non-empty and carries no whitespace at either end. */
  lemma SplitStatementsTrimmed(text: string)
    ensures forall k :: 0 <= k < |Split(text)| ==> IsTrimmedStatement(Split(text)[k])
  {
    StatementsTrimmed(TextChunks(text));
  }

  /**
    Every statement but possibly the last (the leftover after the final `;`)
    ends with `;`.
  */
  lemma SplitStatementsEndWithSemicolon(text: string)
    ensures var r := Split(text); forall k :: 0 <= k < |r| - 1 ==> EndsWith(r[k], ";")
  {
    var chunks := TextChunks(text);
    ChunksPartition(text);
    forall j | 0 <= j < |chunks| - 1 ensures EndsWith(chunks[j], ";") {
      assert IsStatementChunk(chunks[j]);
    }
    StatementsSemicolons(chunks);
  }

  /**
    The pieces partition the text; each piece but the last is cut exactly at
    its first statement-ending `;` (a `;` read in normal mode, unescaped), and
    the last holds no such `;`.
  */
  lemma {:induction false} ChunksPartition(text: string)
    ensures Concat(TextChunks(text)) == text
    ensures var c := TextChunks(text);
      (forall j :: 0 <= j < |c| - 1 ==> IsStatementChunk(c[j])) && IsTailChunk(c[|c| - 1])
    ensures Split(text) == Statements(TextChunks(text))
  {
    NoEndBeforeEmpty();
    ChunksShape(Start, [], text);
  }

  lemma NoEndBeforeEmpty()
    ensures Run(Start, []) == Start && NoEndBefore([], 0)
  {
  }

  /** A character that does not change mode `m` and cannot end a statement there. */
  predicate Ordinary(m: Mode, c: char) {
    c != '\\' &&
    match m
    case Normal => c != '\'' && c != '"' && c != '`' && c != ';'
    case InSingle => c != '\''
    case InDouble => c != '"'
    case InBacktick => c != '`'
  }

  /** Text that leaves mode `m` unchanged: ordinary characters and backslash-escaped pairs. */
  predicate Inert(m: Mode, body: string)
    decreases |body|
  {
    if body == [] then true
    else if body[0] == '\\' then |body| >= 2 && Inert(m, body[2..])
    else Ordinary(m, body[0]) && Inert(m, body[1..])
  }

  /**
    Inert text is never cut: it joins the current statement and the scan
    goes on in the same mode. In normal mode this covers `\;`; inside quotes
    it covers `;`, the other two kinds of quote and escaped quotes of its own kind.
  */
  lemma {:induction false} InertRegion(m: Mode, body: string, current: string, tail: string)
    requires Inert(m, body)
    ensures Chunks(ScanState(m, false), current, body + tail) == Chunks(ScanState(m, false), current + body, tail)
    decreases |body|
  {
    if body == [] {
      assert current + body == current && body + tail == tail;
    } else {
      var n := if body[0] == '\\' then 2 else 1;
      var head := body[..n];
      assert body + tail == head + (body[n..] + tail);
      if n == 2 {
        assert head == ['\\', body[1]];
        EscapedPair(m, body[1], current, body[n..] + tail);
      } else {
        assert head == [body[0]];
        OrdinaryChar(m, body[0], current, body[n..] + tail);
      }
      InertRegion(m, body[n..], current + head, tail);
      assert current + head + body[n..] == current + body;
    }
  }

  /** A backslash and the character it escapes join the statement and leave the mode as it was. */
  lemma EscapedPair(m: Mode, c: char, current: string, rest: string)
    ensures Chunks(ScanState(m, false), current, ['\\', c] + rest)
         == Chunks(ScanState(m, false), current + ['\\', c], rest)
  {
    ChunksStep(ScanState(m, false), current, '\\', [c] + rest);
    assert ['\\', c] + rest == ['\\'] + ([c] + rest);
    ChunksStep(ScanState(m, true), current + ['\\'], c, rest);
    assert current + ['\\'] + [c] == current + ['\\', c];
  }

  /** An ordinary character joins the statement and leaves the mode as it was. */
  lemma OrdinaryChar(m: Mode, c: char, current: string, rest: string)
    requires Ordinary(m, c)
    ensures Chunks(ScanState(m, false), current, [c] + rest) == Chunks(ScanState(m, false), current + [c], rest)
  {
    ChunksStep(ScanState(m, false), current, c, rest);
  }

  function Opening(q: char): Mode {
    if q == '\'' then InSingle else if q == '"' then InDouble else InBacktick
  }

  /**
    A quoted region met in normal mode — opening quote, inert body, the same quote
    again — is never cut, whatever `;` or other quotes the body holds, and
    the scan is back in normal mode after it.
  */
  lemma {:induction false} QuotedRegion(q: char, body: string, current: string, tail: string)
    requires q == '\'' || q == '"' || q == '`'
    requires Inert(Opening(q), body)
    ensures Chunks(Start, current, [q] + body + [q] + tail) == Chunks(Start, current + [q] + body + [q], tail)
  {
    var m := Opening(q);
    assert Step(Start, q) == ScanState(m, false);
    assert ([q] + body + [q] + tail)[0] == q;
    assert ([q] + body + [q] + tail)[1..] == body + ([q] + tail);
    InertRegion(m, body, current + [q], [q] + tail);
    assert Step(ScanState(m, false), q) == Start;
    assert ([q] + tail)[1..] == tail;
  }

  /** Text made of characters that are ordinary in mode `m` is inert in that mode. */
  lemma {:induction false} OrdinaryIsInert(m: Mode, s: string)
    requires forall i :: 0 <= i < |s| ==> Ordinary(m, s[i])
    ensures Inert(m, s)
    decreases |s|
  {
    if s != [] {
      OrdinaryIsInert(m, s[1..]);
    }
  }

  /** A quoted region after inert plain text, read from the start of a statement. */
  lemma {:induction false} PlainThenQuoted(current: string, plain: string, q: char, body: string, tail: string)
    requires q == '\'' || q == '"' || q == '`'
    requires Inert(Normal, plain) && Inert(Opening(q), body)
    ensures Chunks(Start, current, plain + ([q] + body + [q]) + tail)
         == Chunks(Start, current + plain + ([q] + body + [q]), tail)
  {
    var quoted := [q] + body + [q];
    assert plain + quoted + tail == plain + (quoted + tail);
    InertRegion(Normal, plain, current, quoted + tail);
    assert quoted + tail == [q] + body + [q] + tail;
    QuotedRegion(q, body, current + plain, tail);
    assert current + plain + [q] + body + [q] == current + plain + quoted;
  }

  /** The raw pieces of plain text, a quoted value, plain text, a quoted value, plain text and `;`. */
  lemma {:induction false} TwoQuotedValuesChunks(p1: string, b1: string, p2: string, b2: string, p3: string)
    requires Inert(Normal, p1) && Inert(Normal, p2) && Inert(Normal, p3)
    requires Inert(InSingle, b1) && Inert(InDouble, b2)
    ensures var text := p1 + ("'" + b1 + "'") + p2 + ("\"" + b2 + "\"") + p3 + ";";
      Chunks(Start, [], text) == [text, []]
  {
    var q1 := "'" + b1 + "'";
    var q2 := "\"" + b2 + "\"";
    assert q1 == ['\''] + b1 + ['\''];
    assert q2 == ['"'] + b2 + ['"'];
    var text := p1 + q1 + p2 + q2 + p3 + ";";
    var rest1 := p2 + q2 + p3 + ";";
    assert text == p1 + q1 + rest1;
    PlainThenQuoted([], p1, '\'', b1, rest1);
    assert [] + p1 + q1 == p1 + q1;
    var rest2 := p3 + ";";
    assert rest1 == p2 + q2 + rest2;
    PlainThenQuoted(p1 + q1, p2, '"', b2, rest2);
    var whole := p1 + q1 + p2 + q2;
    InertRegion(Normal, p3, whole, ";");
    ChunksOfSemicolon(whole + p3);
    assert whole + p3 + ";" == text;
  }

  lemma ChunksOfSemicolon(whole: string)
    ensures Chunks(Start, whole, ";") == [whole + ";", []]
  {
    assert ";"[0] == ';' && ";"[1..] == [];
    assert Chunks(Start, whole, ";") == [whole + ";"] + Chunks(Start, [], []);
  }

  /**
    Quote safety, in the shape of `INSERT INTO t VALUES ('a;b', "c;d");`:
    plain text, a single-quoted value, plain text, a double-quoted value,
    plain text and a final `;` form exactly one statement, whatever `;`,
    other quotes or escaped characters the two quoted values hold.
  */
  lemma TwoQuotedValuesOneStatement(p1: string, b1: string, p2: string, b2: string, p3: string)
    requires forall i :: 0 <= i < |p1| ==> Ordinary(Normal, p1[i])
    requires forall i :: 0 <= i < |p2| ==> Ordinary(Normal, p2[i])
    requires forall i :: 0 <= i < |p3| ==> Ordinary(Normal, p3[i])
    requires Inert(InSingle, b1) && Inert(InDouble, b2)
    ensures var text := p1 + ("'" + b1 + "'") + p2 + ("\"" + b2 + "\"") + p3 + ";";
      Split(text) == Emit(text) && |Split(text)| == 1
  {
    var text := p1 + ("'" + b1 + "'") + p2 + ("\"" + b2 + "\"") + p3 + ";";
    OrdinaryIsInert(Normal, p1);
    OrdinaryIsInert(Normal, p2);
    OrdinaryIsInert(Normal, p3);
    TwoQuotedValuesChunks(p1, b1, p2, b2, p3);
    StatementsOfOne(text);
  }

  lemma StatementsOfOne(text: string)
    requires EndsWith(text, ";")
    ensures Statements([text, []]) == Emit(text) && |Emit(text)| == 1
  {
    var chunks := [text, []];
    assert chunks[1..] == [[]];
    assert Statements(chunks) == Emit(text) + Statements([[]]);
    assert Statements([[]]) == Emit([]) + Statements([]);
    EmitKeepsSemicolon(text);
  }

  /** The example itself: `INSERT INTO t VALUES ('a;b', "c;d");` is one statement, the text itself. */
  lemma QuotedSemicolonsExample(text: string)
    requires text == "INSERT INTO t VALUES ('a;b', \"c;d\");"
    ensures Split(text) == [text]
  {
    var p1, b1, p2, b2, p3 := "INSERT INTO t VALUES (", "a;b", ", ", "c;d", ")";
    ExampleParts(text);
    ExamplePiecesInert();
    TwoQuotedValuesChunks(p1, b1, p2, b2, p3);
    StatementsOfOne(text);
    ExampleTrimmed(text);
  }

  lemma ExampleParts(text: string)
    requires text == "INSERT INTO t VALUES ('a;b', \"c;d\");"
    ensures text == "INSERT INTO t VALUES (" + ("'" + "a;b" + "'") + ", " + ("\"" + "c;d" + "\"") + ")" + ";"
  {
  }

  lemma ExampleTrimmed(text: string)
    requires text == "INSERT INTO t VALUES ('a;b', \"c;d\");"
    ensures Emit(text) == [text]
  {
    assert text[0] == 'I' && text[|text| - 1] == ';';
    StripTrimmed(text);
  }

  lemma ExamplePiecesInert()
    ensures Inert(Normal, "INSERT INTO t VALUES (") && Inert(Normal, ", ") && Inert(Normal, ")")
    ensures Inert(InSingle, "a;b") && Inert(InDouble, "c;d")
  {
    ExampleHeadInert("INSERT INTO t VALUES (");
    ExampleInert(Normal, ", ");
    ExampleInert(Normal, ")");
    ExampleInert(InSingle, "a;b");
    ExampleInert(InDouble, "c;d");
  }

  lemma ExampleInert(m: Mode, p: string)
    requires (m == Normal && (p == ", " || p == ")")) || (m == InSingle && p == "a;b") || (m == InDouble && p == "c;d")
    ensures Inert(m, p)
  {
    OrdinaryIsInert(m, p);
  }

  /** The text before the first value uses letters, spaces and `(` only. */
  lemma ExampleHeadInert(p: string)
    requires p == "INSERT INTO t VALUES ("
    ensures Inert(Normal, p)
  {
    OrdinaryIsInert(Normal, p);
  }

  /** The scanner's state as the source keeps it: three quote flags and the escape flag. */
  function StateOf(inSingle: bool, inDouble: bool, inBacktick: bool, escape: bool): ScanState {
    ScanState(
      if inSingle then InSingle else if inDouble then InDouble else if inBacktick then InBacktick else Normal,
      escape)
  }

  lemma StatementsCons(chunk: string, chunks: seq<string>)
    ensures Statements([chunk] + chunks) == Emit(chunk) + Statements(chunks)
  {
    assert ([chunk] + chunks)[1..] == chunks;
  }

  /** A statement-ending `;`: the statement read so far is emitted and a new one begins. */
  lemma CutStep(done: seq<string>, st: ScanState, current: string, ch: char, rest: string)
    requires EndsStatement(st, ch)
    ensures done + Statements(Chunks(st, current, [ch] + rest))
      == (done + Emit(current + [ch])) + Statements(Chunks(Start, [], rest))
  {
    ChunksStep(st, current, ch, rest);
    StatementsCons(current + [ch], Chunks(Start, [], rest));
  }

  /** `split_sql_statements`: the source's character loop. */
  method SplitSqlStatements(sqlText: string) returns (statements: seq<string>)
    ensures statements == Split(sqlText)
  {
    statements := [];
    var current: string := [];
    var inSingle, inDouble, inBacktick, escape := false, false, false, false;
    var i := 0;
    while i < |sqlText|
      invariant 0 <= i <= |sqlText|
      invariant !(inSingle && inDouble) && !(inSingle && inBacktick) && !(inDouble && inBacktick)
      invariant statements + Statements(Chunks(StateOf(inSingle, inDouble, inBacktick, escape), current, sqlText[i..]))
                == Split(sqlText)
    {
      ghost var st := StateOf(inSingle, inDouble, inBacktick, escape);
      ghost var before, done := current, statements;
      var ch := sqlText[i];
      ghost var rest := sqlText[i + 1..];
      SuffixCons(sqlText, i);
      current := current + [ch];
      if escape {
        escape := false;
      } else if ch == '\\' {
        escape := true;
      } else if inSingle {
        if ch == '\'' { inSingle := false; }
      } else if inDouble {
        if ch == '"' { inDouble := false; }
      } else if inBacktick {
        if ch == '`' { inBacktick := false; }
      } else if ch == '\'' {
        inSingle := true;
      } else if ch == '"' {
        inDouble := true;
      } else if ch == '`' {
        inBacktick := true;
      } else if ch == ';' {
        var statement := Strip(current);
        if statement != [] {
          statements := statements + [statement];
        }
        current := [];
      }
      if EndsStatement(st, ch) {
        CutStep(done, st, before, ch, rest);
        assert statements == done + Emit(before + [ch]);
        assert StateOf(inSingle, inDouble, inBacktick, escape) == Start;
      } else {
        ChunksStep(st, before, ch, rest);
        assert StateOf(inSingle, inDouble, inBacktick, escape) == Step(st, ch);
      }
      i := i + 1;
    }
    assert sqlText[i..] == [];
    StatementsCons(current, []);
    var leftover := Strip(current);
    if leftover != [] {
      statements := statements + [leftover];
    }
  }
}
