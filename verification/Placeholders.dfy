/**
 Rendering `?` placeholders into SQL text, and reading the text back: quoted strings use doubled
 quotes inside, as in section 5.3 of ISO/IEC 9075-2.
 */
module Placeholders {
  import opened Sequences
  import opened Wrappers

  // ----- rendering -----

  /** A parameter: a string, a plain numeric text, or the textual form of any other value. */
  datatype Param = Str(s: string) | Numeric(plain: string) | Other(textual: string)

  function Lower(c: char): char {
    if 'A' <= c <= 'Z' then (c as int - 'A' as int + 'a' as int) as char else c
  }

  predicate IsNull(s: string) {
    |s| == 4 && Lower(s[0]) == 'n' && Lower(s[1]) == 'u' && Lower(s[2]) == 'l' && Lower(s[3]) == 'l'
  }

  datatype Shape = Quoted(text: string) | Bare(text: string)

  /** Strings, and values whose textual form is a JSON string, become quoted literals. */
  function ShapeOf(p: Param): Shape {
    match p
    case Str(s) => Quoted(s)
    case Numeric(t) => Bare(t)
    case Other(t) =>
      if IsNull(t) then Bare("NULL")
      else if |t| >= 2 && t[0] == '\"' && t[|t| - 1] == '\"' then Quoted(t[1..|t| - 1])
      else Bare(t)
  }

  function Doubled(q: char, s: string): string {
    if s == "" then "" else (if s[0] == q then [q, q] else [s[0]]) + Doubled(q, s[1..])
  }

  function Enclosed(q: char, s: string): string {
    [q] + Doubled(q, s) + [q]
  }

  function Literal(p: Param): string {
    match ShapeOf(p) case Quoted(s) => Enclosed('\'', s) case Bare(t) => t
  }

  function Holes(sql: string): nat {
    if sql == "" then 0 else (if sql[0] == '?' then 1 else 0) + Holes(sql[1..])
  }

  function Render(sql: string, params: seq<Param>): string {
    if sql == "" then ""
    else if sql[0] == '?' && params != [] then Literal(params[0]) + Render(sql[1..], params[1..])
    else [sql[0]] + Render(sql[1..], params)
  }

  function Literals(params: seq<Param>): (lits: seq<string>)
    ensures |lits| == |params| && forall i :: 0 <= i < |params| ==> lits[i] == Literal(params[i])
  {
    if params == [] then [] else Literals(params[..|params| - 1]) + [Literal(params[|params| - 1])]
  }

  /** The rendering from position `i` on, with the literals from `k` on. */
  function RenderFrom(sql: string, i: nat, lits: seq<string>, k: nat): string
    requires i <= |sql| && k <= |lits|
    decreases |sql| - i
  {
    if i == |sql| then ""
    else if sql[i] == '?' && k < |lits| then lits[k] + RenderFrom(sql, i + 1, lits, k + 1)
    else [sql[i]] + RenderFrom(sql, i + 1, lits, k)
  }

  lemma {:induction false} RenderFromIs(sql: string, i: nat, params: seq<Param>, k: nat)
    requires i <= |sql| && k <= |params|
    ensures RenderFrom(sql, i, Literals(params), k) == Render(sql[i..], params[k..])
    decreases |sql| - i
  {
    if i < |sql| {
      DropFirst(sql, i);
      if sql[i] == '?' && k < |params| {
        DropFirst(params, k);
        RenderFromIs(sql, i + 1, params, k + 1);
      } else {
        RenderFromIs(sql, i + 1, params, k);
      }
    }
  }

  /** No placeholder stands from position `i` up to position `j`. */
  predicate NoHole(sql: string, i: int, j: int) {
    forall p :: 0 <= i <= p < j <= |sql| ==> sql[p] != '?'
  }

  lemma {:induction false} RenderText(sql: string, i: nat, j: nat, lits: seq<string>, k: nat)
    requires i <= j <= |sql| && k <= |lits| && NoHole(sql, i, j)
    ensures RenderFrom(sql, i, lits, k) == sql[i..j] + RenderFrom(sql, j, lits, k)
    decreases j - i
  {
    if i < j {
      RenderText(sql, i + 1, j, lits, k);
      SliceHead(sql, i, j);
      Regroup([sql[i]], sql[i + 1..j], RenderFrom(sql, j, lits, k));
    }
  }

  lemma {:induction false} RenderEnd(sql: string, i: nat, lits: seq<string>)
    requires i <= |sql|
    ensures RenderFrom(sql, i, lits, |lits|) == sql[i..]
    decreases |sql| - i
  {
    if i < |sql| {
      RenderEnd(sql, i + 1, lits);
      assert sql[i..] == [sql[i]] + sql[i + 1..];
    }
  }

  /** The placeholders from position `i` on. */
  function HolesFrom(sql: string, i: nat): nat
    requires i <= |sql|
    decreases |sql| - i
  {
    if i == |sql| then 0 else (if sql[i] == '?' then 1 else 0) + HolesFrom(sql, i + 1)
  }

  lemma {:induction false} HolesFromIs(sql: string, i: nat)
    requires i <= |sql|
    ensures HolesFrom(sql, i) == Holes(sql[i..])
    decreases |sql| - i
  {
    if i < |sql| {
      assert sql[i..][1..] == sql[i + 1..];
      HolesFromIs(sql, i + 1);
    }
  }

  lemma {:induction false} HolesText(sql: string, i: nat, j: nat)
    requires i <= j <= |sql| && NoHole(sql, i, j)
    ensures HolesFrom(sql, i) == HolesFrom(sql, j)
    decreases j - i
  {
    if i < j { HolesText(sql, i + 1, j); }
  }

  /** The next placeholder at or after `from`. */
  method FindHole(sql: string, from: nat) returns (pos: nat)
    requires from <= |sql|
    ensures from <= pos <= |sql| && NoHole(sql, from, pos) && (pos < |sql| ==> sql[pos] == '?')
  {
    pos := from;
    while pos < |sql| && sql[pos] != '?'
      invariant from <= pos <= |sql| && NoHole(sql, from, pos)
    {
      pos := pos + 1;
    }
  }

  /** Where the text after the first `k` placeholders starts. */
  function Resume(pieces: seq<nat>, k: nat): nat
    requires k <= |pieces|
  {
    if k == 0 then 0 else pieces[k - 1] + 1
  }

  /** The k-th piece is the first placeholder after the one before it. */
  predicate NextHole(sql: string, pieces: seq<nat>, k: nat)
    requires k < |pieces|
  {
    Resume(pieces, k) <= pieces[k] < |sql| && sql[pieces[k]] == '?' && NoHole(sql, Resume(pieces, k), pieces[k])
  }

  lemma HolesKept(sql: string, pieces: seq<nat>, pos: nat)
    requires forall k :: 0 <= k < |pieces| ==> NextHole(sql, pieces, k)
    requires Resume(pieces, |pieces|) <= pos < |sql| && sql[pos] == '?' && NoHole(sql, Resume(pieces, |pieces|), pos)
    ensures forall k :: 0 <= k <= |pieces| ==> NextHole(sql, pieces + [pos], k)
  {
    forall k | 0 <= k <= |pieces| ensures NextHole(sql, pieces + [pos], k) {
      assert Resume(pieces + [pos], k) == Resume(pieces, k);
      assert k < |pieces| ==> NextHole(sql, pieces, k);
    }
  }

  /** All placeholders of the template, in order. */
  method MatchIndices(sql: string) returns (pieces: seq<nat>)
    ensures |pieces| == Holes(sql)
    ensures forall k :: 0 <= k < |pieces| ==> NextHole(sql, pieces, k)
    ensures Resume(pieces, |pieces|) <= |sql| && NoHole(sql, Resume(pieces, |pieces|), |sql|)
  {
    pieces := [];
    var start := 0;
    HolesFromIs(sql, 0);
    assert sql[0..] == sql;
    while true
      invariant start == Resume(pieces, |pieces|) <= |sql| && |pieces| + HolesFrom(sql, start) == Holes(sql)
      invariant forall k :: 0 <= k < |pieces| ==> NextHole(sql, pieces, k)
      decreases |sql| - start
    {
      var pos := FindHole(sql, start);
      HolesText(sql, start, pos);
      if pos == |sql| { return; }
      HolesKept(sql, pieces, pos);
      pieces := pieces + [pos];
      start := pos + 1;
    }
  }

  /** `out` and the rendering from position `start` and literal `idx` on make up `whole`. */
  ghost predicate PutOut(sql: string, lits: seq<string>, out: string, start: nat, idx: nat, whole: string) {
    start <= |sql| && idx <= |lits| && out + RenderFrom(sql, start, lits, idx) == whole
  }

  lemma {:induction false} PutOutNone(sql: string, params: seq<Param>)
    ensures PutOut(sql, Literals(params), "", 0, 0, Render(sql, params))
  {
    RenderFromIs(sql, 0, params, 0);
    assert sql[0..] == sql && params[0..] == params;
    assert "" + Render(sql, params) == Render(sql, params);
  }

  lemma PutOutOne(sql: string, lits: seq<string>, out: string, start: nat, idx: nat, whole: string, pos: nat)
    requires PutOut(sql, lits, out, start, idx, whole) && idx < |lits|
    requires start <= pos < |sql| && sql[pos] == '?' && NoHole(sql, start, pos)
    ensures PutOut(sql, lits, out + (sql[start..pos] + lits[idx]), pos + 1, idx + 1, whole)
  {
    var text, rest := sql[start..pos], RenderFrom(sql, pos + 1, lits, idx + 1);
    RenderText(sql, start, pos, lits, idx);
    assert RenderFrom(sql, pos, lits, idx) == lits[idx] + rest;
    Regroup(text, lits[idx], rest);
    Regroup(out, text + lits[idx], rest);
  }

  lemma PutOutAll(sql: string, lits: seq<string>, out: string, start: nat, whole: string)
    requires PutOut(sql, lits, out, start, |lits|, whole)
    ensures out + sql[start..] == whole
  {
    RenderEnd(sql, start, lits);
  }

  /** The text between placeholders, and a literal for each. */
  method Interleave(sql: string, pieces: seq<nat>, lits: seq<string>, ghost whole: string) returns (out: string)
    requires |pieces| == |lits| && PutOut(sql, lits, "", 0, 0, whole)
    requires forall k :: 0 <= k < |pieces| ==> NextHole(sql, pieces, k)
    ensures out == whole
  {
    out := "";
    var start := 0;
    for idx := 0 to |pieces|
      invariant start == Resume(pieces, idx) && PutOut(sql, lits, out, start, idx, whole)
    {
      var pos := pieces[idx];
      assert NextHole(sql, pieces, idx);
      PutOutOne(sql, lits, out, start, idx, whole, pos);
      out := out + (sql[start..pos] + lits[idx]);
      start := pos + 1;
    }
    PutOutAll(sql, lits, out, start, whole);
    out := out + sql[start..];
  }

  /** Without parameters the template is left alone; otherwise their number must be that of the question marks. */
  function Replaced(sql: string, params: seq<Param>): Option<string> {
    if params == [] then Some(sql) else if Holes(sql) == |params| then Some(Render(sql, params)) else None
  }

  method ReplacePlaceholders(sql: string, params: seq<Param>) returns (r: Option<string>)
    ensures r == Replaced(sql, params)
  {
    if params == [] { return Some(sql); }
    var pieces := MatchIndices(sql);
    if |pieces| != |params| { return None; }
    PutOutNone(sql, params);
    var out := Interleave(sql, pieces, Literals(params), Render(sql, params));
    r := Some(out);
  }

  // ----- reading -----

  /** Text outside quotes character by character, whole quoted strings, and a string left open at the end. */
  datatype Token = Ch(c: char) | Lit(s: string) | Unclosed(s: string)

  /** Outside quotes, inside a string, or just after a quote that closes it unless another follows. */
  datatype Mode = Code | In(acc: string) | End(acc: string)

  function Lex(q: char, mode: Mode, text: string): seq<Token>
    decreases |text|
  {
    if text == "" then
      match mode case Code => [] case In(a) => [Unclosed(a)] case End(a) => [Lit(a)]
    else
      var c, rest := text[0], text[1..];
      match mode
      case Code => if c == q then Lex(q, In(""), rest) else [Ch(c)] + Lex(q, Code, rest)
      case In(a) => if c == q then Lex(q, End(a), rest) else Lex(q, In(a + [c]), rest)
      case End(a) => if c == q then Lex(q, In(a + [q]), rest) else [Lit(a), Ch(c)] + Lex(q, Code, rest)
  }

  /** One character of an enclosed text, doubled if it is the quote. */
  lemma {:induction false} LexOne(q: char, a: string, c: char, tail: string)
    ensures Lex(q, In(a), (if c == q then [q, q] else [c]) + tail) == Lex(q, In(a + [c]), tail)
  {
    if c == q {
      assert [q, q] + tail == [q] + ([q] + tail);
      assert ([q] + ([q] + tail))[1..] == [q] + tail && ([q] + tail)[1..] == tail;
    } else {
      assert ([c] + tail)[1..] == tail;
    }
  }

  lemma {:induction false} LexDoubled(q: char, a: string, s: string, rest: string)
    ensures Lex(q, In(a), Doubled(q, s) + rest) == Lex(q, In(a + s), rest)
    decreases |s|
  {
    if s == "" {
      assert Doubled(q, s) + rest == rest && a + s == a;
    } else {
      var c, tail := s[0], s[1..];
      LexDoubled(q, a + [c], tail, rest);
      LexOne(q, a, c, Doubled(q, tail) + rest);
      Regroup(if c == q then [q, q] else [c], Doubled(q, tail), rest);
      assert (a + [c]) + tail == a + s;
    }
  }

  /** An enclosed text reads back as itself, up to the quote that ends it. */
  lemma {:induction false} LexEnclosed(q: char, s: string, rest: string)
    ensures Lex(q, Code, Enclosed(q, s) + rest) == Lex(q, End(s), rest)
  {
    var tail := [q] + rest;
    assert Enclosed(q, s) + rest == [q] + (Doubled(q, s) + tail);
    LexDoubled(q, "", s, tail);
    assert "" + s == s;
  }

  /** A quoted identifier names exactly the original, whatever characters it contains. */
  lemma QuoteIdentReadsBack(name: string)
    ensures Lex('\"', Code, Enclosed('\"', name)) == [Lit(name)]
  {
    LexEnclosed('\"', name, "");
    assert Enclosed('\"', name) + "" == Enclosed('\"', name);
  }

  function Chars(t: string): seq<Token> {
    if t == "" then [] else [Ch(t[0])] + Chars(t[1..])
  }

  lemma {:induction false} LexBare(q: char, t: string, rest: string)
    requires q !in t
    ensures Lex(q, Code, t + rest) == Chars(t) + Lex(q, Code, rest)
  {
    if t == "" {
      assert t + rest == rest;
    } else {
      assert (t + rest)[1..] == t[1..] + rest;
      LexBare(q, t[1..], rest);
    }
  }

  /** Inside a string, whatever comes next only makes it longer. */
  lemma {:induction false} StringOnlyGrows(q: char, mode: Mode, text: string)
    requires !mode.Code?
    ensures var ts := Lex(q, mode, text); ts != [] && !ts[0].Ch? && |ts[0].s| >= |mode.acc|
    decreases |text|
  {
    if text != "" {
      match mode
      case In(a) => StringOnlyGrows(q, if text[0] == q then End(a) else In(a + [text[0]]), text[1..]);
      case End(a) => if text[0] == q { StringOnlyGrows(q, In(a + [q]), text[1..]); }
    }
  }

  // ----- rendering preserves the token structure -----

  /** The word null in any letter case. */
  predicate SpellsNull(t: string) {
    && |t| == 4
    && (t[0] == 'n' || t[0] == 'N') && (t[1] == 'u' || t[1] == 'U')
    && (t[2] == 'l' || t[2] == 'L') && (t[3] == 'l' || t[3] == 'L')
  }

  /** A text between double quotes. */
  predicate DoubleQuoted(t: string) {
    |t| >= 2 && t[0] == '\"' && t[|t| - 1] == '\"'
  }

  /**
   The tokens a parameter stands for: a string, and the inside of a double-quoted text, as one literal;
   null as NULL; any other text as its own characters.
   */
  function Piece(p: Param): seq<Token> {
    if p.Str? then [Lit(p.s)]
    else if p.Numeric? then Chars(p.plain)
    else if SpellsNull(p.textual) then Chars("NULL")
    else if DoubleQuoted(p.textual) then [Lit(p.textual[1..|p.textual| - 1])]
    else Chars(p.textual)
  }

  lemma LowerIs(c: char, lower: char)
    requires 'a' <= lower <= 'z'
    ensures Lower(c) == lower <==> c == lower || c as int == lower as int - 32
  {
  }

  lemma NullExactly(t: string)
    ensures IsNull(t) <==> SpellsNull(t)
  {
    if |t| == 4 {
      LowerIs(t[0], 'n');
      LowerIs(t[1], 'u');
      LowerIs(t[2], 'l');
      LowerIs(t[3], 'l');
    }
  }

  /** The rendering has the shape of the tokens it stands for. */
  lemma ShapeExact(p: Param)
    ensures Piece(p) == match ShapeOf(p) case Quoted(s) => [Lit(s)] case Bare(t) => Chars(t)
  {
    if p.Other? { NullExactly(p.textual); }
  }

  /** The template's tokens with each placeholder replaced by its parameter, and nothing else touched. */
  function Substitute(ts: seq<Token>, params: seq<Param>): seq<Token> {
    if ts == [] then []
    else if ts[0] == Ch('?') && params != [] then Piece(params[0]) + Substitute(ts[1..], params[1..])
    else [ts[0]] + Substitute(ts[1..], params)
  }

  /** No placeholder stands inside a quoted string of the template. */
  predicate HolesOutside(mode: Mode, sql: string)
    decreases |sql|
  {
    if sql == "" then true
    else
      var c, rest := sql[0], sql[1..];
      match mode
      case Code => HolesOutside(if c == '\'' then In("") else Code, rest)
      case In(a) => c != '?' && HolesOutside(if c == '\'' then End(a) else In(a + [c]), rest)
      case End(a) => HolesOutside(if c == '\'' then In(a + ['\'']) else Code, rest)
  }

  /**
   What stands just before: nothing that matters, a quote of the template, or the end of a string that the
   template has left.
   */
  datatype Edge = Plain | Quote | Hole

  /**
   No placeholder that renders quoted stands next to a quote or to another such placeholder, even if
   one that renders as nothing is between.
   */
  predicate Apart(prev: Edge, sql: string, params: seq<Param>)
    decreases |sql|
  {
    if sql == "" then true
    else if sql[0] == '?' && params != [] then
      if ShapeOf(params[0]).Quoted? then prev == Plain && Apart(Hole, sql[1..], params[1..])
      else Apart(if ShapeOf(params[0]).text != "" || prev == Plain then Plain else Hole, sql[1..], params[1..])
    else if sql[0] == '\'' then prev != Hole && Apart(Quote, sql[1..], params)
    else Apart(Plain, sql[1..], params)
  }

  /** The parameter is rendered without quotes although its text contains one. */
  predicate BareQuote(p: Param) {
    ShapeOf(p).Bare? && '\'' in ShapeOf(p).text
  }

  predicate NoBareQuote(params: seq<Param>) {
    forall i :: 0 <= i < |params| ==> !BareQuote(params[i])
  }

  lemma Cancel<T>(x: seq<T>, a: seq<T>, b: seq<T>)
    ensures x + a == x + b <==> a == b
  {
    assert (x + a)[|x|..] == a && (x + b)[|x|..] == b;
  }

  lemma {:induction false} LexOneMore(q: char, mode: Mode, c: char, rest: string)
    ensures Lex(q, mode, [c] + rest) ==
            match mode
            case Code => if c == q then Lex(q, In(""), rest) else [Ch(c)] + Lex(q, Code, rest)
            case In(a) => if c == q then Lex(q, End(a), rest) else Lex(q, In(a + [c]), rest)
            case End(a) => if c == q then Lex(q, In(a + [q]), rest) else [Lit(a), Ch(c)] + Lex(q, Code, rest)
  {
    assert ([c] + rest)[1..] == rest;
  }

  lemma {:induction false} LexBareAfter(s: string, t: string, rest: string)
    requires t != "" && '\'' !in t
    ensures Lex('\'', End(s), t + rest) == [Lit(s)] + (Chars(t) + Lex('\'', Code, rest))
  {
    assert t + rest == [t[0]] + (t[1..] + rest);
    LexOneMore('\'', End(s), t[0], t[1..] + rest);
    LexBare('\'', t[1..], rest);
  }

  /** A quote right after a closing quote reopens the string, so the tokens start with a longer one. */
  lemma {:induction false} ReopenedDiffers(s: string, rest: string, expected: seq<Token>)
    ensures Lex('\'', End(s), ['\''] + rest) != [Lit(s)] + expected
  {
    LexOneMore('\'', End(s), '\'', rest);
    StringOnlyGrows('\'', In(s + ['\'']), rest);
  }

  /** What follows a string that has ended, in the template and in the rendered text. */
  lemma {:induction false} EndedThen(a: string, piece: seq<Token>, text: string, rest: string, params: seq<Param>)
    requires Lex('\'', End(a), text) == [Lit(a)] + (piece + Lex('\'', Code, Render(rest, params)))
    requires HolesOutside(Code, rest) && Holes(rest) == |params| && NoBareQuote(params)
    ensures Lex('\'', End(a), text) == [Lit(a)] + (piece + Substitute(Lex('\'', Code, rest), params))
            <==> Apart(Plain, rest, params)
    decreases |rest|, 2
  {
    Outside(rest, params);
    var x, y := Lex('\'', Code, Render(rest, params)), Substitute(Lex('\'', Code, rest), params);
    Cancel([Lit(a)], piece + x, piece + y);
    Cancel(piece, x, y);
  }

  lemma {:induction false} QuotedHole(s: string, sql: string, params: seq<Param>, expected: seq<Token>)
    requires sql != "" && sql[0] == '?' && params != [] && ShapeOf(params[0]).Quoted?
    ensures Lex('\'', End(s), Render(sql, params)) != [Lit(s)] + expected
  {
    var inner, rest := Doubled('\'', ShapeOf(params[0]).text) + ['\''], Render(sql[1..], params[1..]);
    assert Literal(params[0]) == ['\''] + inner;
    Regroup(['\''], inner, rest);
    ReopenedDiffers(s, inner + rest, expected);
  }

  lemma {:induction false} CharAfter(s: string, sql: string, params: seq<Param>)
    requires sql != "" && sql[0] != '?' && sql[0] != '\''
    ensures Lex('\'', End(s), Render(sql, params))
            == [Lit(s)] + ([Ch(sql[0])] + Lex('\'', Code, Render(sql[1..], params)))
    ensures Substitute(Lex('\'', Code, sql), params) == [Ch(sql[0])] + Substitute(Lex('\'', Code, sql[1..]), params)
  {
    var c, x, y := sql[0], Lex('\'', Code, Render(sql[1..], params)), Lex('\'', Code, sql[1..]);
    LexOneMore('\'', End(s), c, Render(sql[1..], params));
    assert [Lit(s), Ch(c)] + x == [Lit(s)] + ([Ch(c)] + x);
    assert ([Ch(c)] + y)[1..] == y;
  }

  /** The rendered text so far ends in a quoted parameter; the template has moved on outside quotes. */
  lemma {:induction false} AfterQuoted(s: string, sql: string, params: seq<Param>)
    requires HolesOutside(Code, sql) && Holes(sql) == |params| && NoBareQuote(params)
    ensures Lex('\'', End(s), Render(sql, params)) == [Lit(s)] + Substitute(Lex('\'', Code, sql), params)
            <==> Apart(Hole, sql, params)
    decreases |sql|, 0
  {
    if sql != "" {
      var c, rest := sql[0], sql[1..];
      if c == '?' && ShapeOf(params[0]).Quoted? {
        QuotedHole(s, sql, params, Substitute(Lex('\'', Code, sql), params));
      } else if c == '?' {
        BareStep(sql, params);
        if ShapeOf(params[0]).text == "" {
          AfterQuoted(s, rest, params[1..]);
          assert "" + Render(rest, params[1..]) == Render(rest, params[1..]);
          assert Chars("") + Substitute(Lex('\'', Code, rest), params[1..])
                 == Substitute(Lex('\'', Code, rest), params[1..]);
        } else {
          LexBareAfter(s, ShapeOf(params[0]).text, Render(rest, params[1..]));
          EndedThen(s, Chars(ShapeOf(params[0]).text), Render(sql, params), rest, params[1..]);
        }
      } else if c == '\'' {
        ReopenedDiffers(s, Render(rest, params), Substitute(Lex('\'', Code, sql), params));
      } else {
        CharAfter(s, sql, params);
        EndedThen(s, [Ch(c)], Render(sql, params), rest, params);
      }
    }
  }

  lemma {:induction false} BareStep(sql: string, params: seq<Param>)
    requires sql != "" && sql[0] == '?' && params != [] && ShapeOf(params[0]).Bare?
    ensures Render(sql, params) == ShapeOf(params[0]).text + Render(sql[1..], params[1..])
    ensures Substitute(Lex('\'', Code, sql), params)
            == Chars(ShapeOf(params[0]).text) + Substitute(Lex('\'', Code, sql[1..]), params[1..])
  {
    ShapeExact(params[0]);
    assert ([Ch('?')] + Lex('\'', Code, sql[1..]))[1..] == Lex('\'', Code, sql[1..]);
  }

  /** Template and rendered text are both outside quotes. */
  lemma {:induction false} Outside(sql: string, params: seq<Param>)
    requires HolesOutside(Code, sql) && Holes(sql) == |params| && NoBareQuote(params)
    ensures Lex('\'', Code, Render(sql, params)) == Substitute(Lex('\'', Code, sql), params)
            <==> Apart(Plain, sql, params)
    decreases |sql|, 1
  {
    if sql != "" {
      var c, rest := sql[0], sql[1..];
      if c == '?' && params != [] {
        var text := Render(rest, params[1..]);
        if ShapeOf(params[0]).Quoted? {
          var s := ShapeOf(params[0]).text;
          ShapeExact(params[0]);
          LexEnclosed('\'', s, text);
          AfterQuoted(s, rest, params[1..]);
          assert ([Ch('?')] + Lex('\'', Code, rest))[1..] == Lex('\'', Code, rest);
        } else {
          BareStep(sql, params);
          LexBare('\'', ShapeOf(params[0]).text, text);
          Outside(rest, params[1..]);
          Cancel(Chars(ShapeOf(params[0]).text), Lex('\'', Code, text), Substitute(Lex('\'', Code, rest), params[1..]));
        }
      } else if c == '\'' {
        LexOneMore('\'', Code, c, Render(rest, params));
        InString("", false, rest, params);
        QuoteInside(In(""), rest, params);
      } else {
        LexOneMore('\'', Code, c, Render(rest, params));
        Outside(rest, params);
        assert ([Ch(c)] + Lex('\'', Code, rest))[1..] == Lex('\'', Code, rest);
        Cancel([Ch(c)], Lex('\'', Code, Render(rest, params)), Substitute(Lex('\'', Code, rest), params));
      }
    }
  }

  /** Inside a template string no placeholder comes next, so what stands before does not matter. */
  lemma {:induction false} QuoteInside(mode: Mode, sql: string, params: seq<Param>)
    requires mode.In? && HolesOutside(mode, sql)
    ensures Apart(Quote, sql, params) == Apart(Plain, sql, params)
  {
  }

  /** Both are inside a string of the template, or just after a quote in it when `ended`. */
  lemma {:induction false} InString(a: string, ended: bool, sql: string, params: seq<Param>)
    requires HolesOutside(if ended then End(a) else In(a), sql) && Holes(sql) == |params| && NoBareQuote(params)
    ensures var mode := if ended then End(a) else In(a);
            Lex('\'', mode, Render(sql, params)) == Substitute(Lex('\'', mode, sql), params)
            <==> Apart(if ended then Quote else Plain, sql, params)
    decreases |sql|, 2
  {
    var mode := if ended then End(a) else In(a);
    if sql == "" {
      assert Lex('\'', mode, sql) == [if ended then Lit(a) else Unclosed(a)];
      assert Substitute([], params) == [];
    } else if ended && sql[0] != '\'' {
      EndedAt(a, sql, params);
    } else {
      var c, rest := sql[0], sql[1..];
      LexOneMore('\'', mode, c, Render(rest, params));
      if c == '\'' {
        InString(if ended then a + ['\''] else a, !ended, rest, params);
        if ended { QuoteInside(In(a + ['\'']), rest, params); }
      } else {
        InString(a + [c], false, rest, params);
      }
    }
  }

  /** Right after a closing quote the template's string is as much a string as a rendered parameter is. */
  lemma {:induction false} EndedAt(a: string, sql: string, params: seq<Param>)
    requires sql != "" && sql[0] != '\'' && HolesOutside(End(a), sql) && Holes(sql) == |params| && NoBareQuote(params)
    ensures Lex('\'', End(a), Render(sql, params)) == Substitute(Lex('\'', End(a), sql), params)
            <==> Apart(Quote, sql, params)
    decreases |sql|, 1
  {
    var ts := Lex('\'', Code, sql);
    assert Lex('\'', End(a), sql) == [Lit(a)] + ts;
    assert ([Lit(a)] + ts)[1..] == ts;
    AfterQuoted(a, sql, params);
    assert Apart(Hole, sql, params) == Apart(Quote, sql, params);
  }

  // ----- all templates and parameters -----

  /** The placeholders of a token sequence. */
  function Marks(ts: seq<Token>): nat {
    if ts == [] then 0 else (if ts[0] == Ch('?') then 1 else 0) + Marks(ts[1..])
  }

  lemma {:induction false} MarksPush(t: Token, ts: seq<Token>)
    ensures Marks([t] + ts) == (if t == Ch('?') then 1 else 0) + Marks(ts)
  {
    assert ([t] + ts)[1..] == ts;
  }

  lemma {:induction false} MarksAfter(a: string, c: char, ts: seq<Token>)
    ensures Marks([Lit(a), Ch(c)] + ts) == (if c == '?' then 1 else 0) + Marks(ts)
  {
    MarksPush(Ch(c), ts);
    MarksPush(Lit(a), [Ch(c)] + ts);
    assert [Lit(a), Ch(c)] + ts == [Lit(a)] + ([Ch(c)] + ts);
  }

  /** The question marks of a template are all placeholders exactly when none stands inside a quoted string. */
  lemma {:induction false} MarksExactly(mode: Mode, sql: string)
    ensures Marks(Lex('\'', mode, sql)) <= Holes(sql)
    ensures Marks(Lex('\'', mode, sql)) == Holes(sql) <==> HolesOutside(mode, sql)
    decreases |sql|
  {
    if sql == "" {
      if !mode.Code? { MarksPush(Lex('\'', mode, sql)[0], []); }
    } else {
      var c, rest := sql[0], sql[1..];
      match mode
      case Code =>
        MarksExactly(if c == '\'' then In("") else Code, rest);
        MarksPush(Ch(c), Lex('\'', Code, rest));
      case In(a) =>
        MarksExactly(if c == '\'' then End(a) else In(a + [c]), rest);
      case End(a) =>
        MarksExactly(if c == '\'' then In(a + ['\'']) else Code, rest);
        MarksAfter(a, c, Lex('\'', Code, rest));
    }
  }

  /** Reading never yields a quote as a character of its own. */
  lemma {:induction false} NoQuoteToken(mode: Mode, text: string)
    ensures Ch('\'') !in Lex('\'', mode, text)
    decreases |text|
  {
    if text != "" {
      var c, rest := text[0], text[1..];
      match mode
      case Code => NoQuoteToken(if c == '\'' then In("") else Code, rest);
      case In(a) => NoQuoteToken(if c == '\'' then End(a) else In(a + [c]), rest);
      case End(a) => NoQuoteToken(if c == '\'' then In(a + ['\'']) else Code, rest);
    }
  }

  lemma {:induction false} CharsHave(t: string, c: char)
    requires c in t
    ensures Ch(c) in Chars(t)
  {
    if t[0] != c { CharsHave(t[1..], c); }
  }

  /** Every parameter of a template with enough placeholders is substituted. */
  lemma {:induction false} SubstituteHas(ts: seq<Token>, params: seq<Param>, i: nat, t: Token)
    requires Marks(ts) >= |params| && i < |params| && t in Piece(params[i])
    ensures t in Substitute(ts, params)
  {
    if ts != [] {
      if ts[0] != Ch('?') {
        SubstituteHas(ts[1..], params, i, t);
      } else if i > 0 {
        SubstituteHas(ts[1..], params[1..], i - 1, t);
      }
    }
  }

  lemma {:induction false} SubstituteNone(ts: seq<Token>)
    ensures Substitute(ts, []) == ts
  {
    if ts != [] {
      SubstituteNone(ts[1..]);
      assert ts == [ts[0]] + ts[1..];
    }
  }

  lemma {:induction false} BareQuoteBreaks(sql: string, params: seq<Param>, i: nat)
    requires Marks(Lex('\'', Code, sql)) == |params| && i < |params| && BareQuote(params[i])
    ensures Lex('\'', Code, Render(sql, params)) != Substitute(Lex('\'', Code, sql), params)
  {
    NoQuoteToken(Code, Render(sql, params));
    ShapeExact(params[i]);
    CharsHave(ShapeOf(params[i]).text, '\'');
    SubstituteHas(Lex('\'', Code, sql), params, i, Ch('\''));
  }

  /**
   Every parameter stands for a placeholder, and the text reads as the template with each replaced by its
   parameter.
   */
  predicate Faithful(sql: string, params: seq<Param>, text: string) {
    && |params| == Marks(Lex('\'', Code, sql))
    && Lex('\'', Code, text) == Substitute(Lex('\'', Code, sql), params)
  }

  /**
   For every template and parameters: the call is refused exactly when there are parameters, but not one
   for every question mark. Otherwise its text reads as the template with every placeholder replaced by
   its parameter, strings as single literals that un-double to exactly their value, if and only if the
   template has no placeholder and no parameter is given, or no question mark stands inside a quoted
   string, no placeholder that renders quoted touches a quote or another such placeholder, and no
   parameter that renders without quotes contains one.
   */
  lemma {:induction false} RenderingExact(sql: string, params: seq<Param>)
    ensures Replaced(sql, params).None? <==> params != [] && |params| != Holes(sql)
    ensures |params| == Marks(Lex('\'', Code, sql)) ==>
      (Replaced(sql, params).None? <==> params != [] && !HolesOutside(Code, sql))
    ensures Replaced(sql, params).Some? ==>
      (Faithful(sql, params, Replaced(sql, params).value)
       <==> if params == [] then Marks(Lex('\'', Code, sql)) == 0
            else HolesOutside(Code, sql) && Apart(Plain, sql, params) && NoBareQuote(params))
  {
    MarksExactly(Code, sql);
    if params == [] {
      SubstituteNone(Lex('\'', Code, sql));
    } else if |params| == Holes(sql) && HolesOutside(Code, sql) {
      if NoBareQuote(params) {
        Outside(sql, params);
      } else {
        var i :| 0 <= i < |params| && BareQuote(params[i]);
        BareQuoteBreaks(sql, params, i);
      }
    }
  }

  /** Two adjacent string placeholders merge into one literal. */
  lemma AdjacentStringsMerge()
    ensures Lex('\'', Code, Render("??", [Str("a"), Str("b")])) == [Lit("a'b")]
  {
    var p := [Str("a"), Str("b")];
    assert "??"[1..] == "?" && "?"[1..] == "" && p[1..] == [Str("b")] && p[1..][1..] == [];
    assert Doubled('\'', "a") == "a" && Doubled('\'', "b") == "b";
    assert Render("??", p) == "'a'" + ("'b'" + "");
    assert "'a'" + ("'b'" + "") == Enclosed('\'', "a'b") by { assert "a'b"[1..] == "'b" && "'b"[1..] == "b"; }
    LexEnclosed('\'', "a'b", "");
    assert Enclosed('\'', "a'b") + "" == Enclosed('\'', "a'b");
  }

  lemma {:induction false} BareReads(t: string)
    requires '\'' !in t
    ensures Lex('\'', Code, t) == Chars(t)
  {
    LexBare('\'', t, "");
    assert t + "" == t;
  }

  /**
   A string parameter reads back as one literal holding exactly its text; a number stays bare; null becomes
   NULL; and any other text that is not between double quotes is rendered as it is.
   */
  lemma {:induction false} ParamsReadBack(s: string)
    ensures Lex('\'', Code, Literal(Str(s))) == [Lit(s)]
    ensures '\'' !in s ==> Lex('\'', Code, Literal(Numeric(s))) == Chars(s)
    ensures SpellsNull(s) ==> Literal(Other(s)) == "NULL"
    ensures !SpellsNull(s) && !DoubleQuoted(s) ==> Literal(Other(s)) == s
    ensures !SpellsNull(s) && !DoubleQuoted(s) && '\'' !in s ==> Lex('\'', Code, Literal(Other(s))) == Chars(s)
  {
    LexEnclosed('\'', s, "");
    assert Enclosed('\'', s) + "" == Enclosed('\'', s);
    NullExactly(s);
    if '\'' !in s { BareReads(s); }
  }

  /** A parameter whose textual form is quoted with double quotes reads back as the text between them. */
  lemma QuotedTextReadsBack(s: string)
    ensures Lex('\'', Code, Literal(Other("\"" + s + "\""))) == [Lit(s)]
  {
    LexEnclosed('\'', s, "");
    assert Enclosed('\'', s) + "" == Enclosed('\'', s);
    var text := "\"" + s + "\"";
    assert text[0] == '\"' && text[1..|text| - 1] == s;
  }
}
