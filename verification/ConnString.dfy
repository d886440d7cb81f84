/**
 The quote-aware database connection string: splitting it into tokens, tokens into key and value, and
 the settings a connection is opened with.
 */
module ConnString {
  import opened Sequences
  import opened Wrappers

  /** The Unicode White_Space characters. */
  predicate IsWhitespace(c: char) {
    var n := c as int;
    || 9 <= n <= 13 || n == 0x20 || n == 0x85 || n == 0xA0 || n == 0x1680 || 0x2000 <= n <= 0x200A
    || n == 0x2028 || n == 0x2029 || n == 0x202F || n == 0x205F || n == 0x3000
  }

  /** The code points with the Unicode property White_Space. */
  lemma WhitespaceExactly(c: char)
    ensures IsWhitespace(c) <==>
            c as int in {9, 10, 11, 12, 13, 32, 133, 160, 5760, 8192, 8193, 8194, 8195, 8196, 8197, 8198, 8199, 8200,
                         8201, 8202, 8232, 8233, 8239, 8287, 12288}
  {
  }

  function NonEmpty(s: string): seq<string> {
    if s == "" then [] else [s]
  }

  /** The tokens of what is left to read, given the quote state and the token begun. */
  function Scan(text: string, inQuote: bool, current: string): seq<string> {
    if text == "" then NonEmpty(current)
    else
      var c, rest := text[0], text[1..];
      if c == '\'' then Scan(rest, !inQuote, current + [c])
      else if IsWhitespace(c) && !inQuote then NonEmpty(current) + Scan(rest, false, "")
      else Scan(rest, inQuote, current + [c])
  }

  function Tokens(input: string): seq<string> {
    Scan(input, false, "")
  }

  method ParseDbConnectString(input: string) returns (result: seq<string>)
    ensures result == Tokens(input)
  {
    result := [];
    var current, inQuote := "", false;
    for i := 0 to |input|
      invariant result + Scan(input[i..], inQuote, current) == Tokens(input)
    {
      var c := input[i];
      assert input[i..][1..] == input[i + 1..];
      if c == '\'' {
        inQuote := !inQuote;
        current := current + [c];
      } else if IsWhitespace(c) && !inQuote {
        Regroup(result, NonEmpty(current), Scan(input[i + 1..], false, ""));
        if current != "" {
          result := result + [current];
          current := "";
        } else {
          assert result + NonEmpty(current) == result;
        }
      } else {
        current := current + [c];
      }
    }
    if current != "" { result := result + [current]; }
  }

  // ----- the shape of tokens -----

  /** Whether an odd number of quotes has been read. */
  function Odd(s: string): bool {
    if s == "" then false else (s[0] == '\'') != Odd(s[1..])
  }

  /** Read from quote state `q`, every whitespace character of `s` is inside quotes. */
  predicate Tight(s: string, q: bool) {
    if s == "" then true
    else (IsWhitespace(s[0]) ==> q) && Tight(s[1..], if s[0] == '\'' then !q else q)
  }

  lemma {:induction false} OddConcat(a: string, b: string)
    ensures Odd(a + b) == (Odd(a) != Odd(b))
  {
    if a == "" {
      assert a + b == b;
    } else {
      assert (a + b)[1..] == a[1..] + b;
      OddConcat(a[1..], b);
    }
  }

  lemma {:induction false} TightConcat(a: string, b: string, q: bool)
    ensures Tight(a + b, q) <==> Tight(a, q) && Tight(b, q != Odd(a))
  {
    if a == "" {
      assert a + b == b;
    } else {
      assert (a + b)[1..] == a[1..] + b;
      TightConcat(a[1..], b, if a[0] == '\'' then !q else q);
    }
  }

  /** A tight text is swallowed whole into the current token. */
  lemma {:induction false} ScanTight(t: string, rest: string, q: bool, current: string)
    requires Tight(t, q)
    ensures Scan(t + rest, q, current) == Scan(rest, q != Odd(t), current + t)
    decreases |t|
  {
    if t == "" {
      assert t + rest == rest && current + t == current;
    } else {
      assert (t + rest)[1..] == t[1..] + rest;
      ScanTight(t[1..], rest, if t[0] == '\'' then !q else q, current + [t[0]]);
      assert current + [t[0]] + t[1..] == current + t;
    }
  }

  /** Tokens are non-empty, keep whitespace inside quotes only, and all but the last have even quotes. */
  ghost predicate Tokenised(ts: seq<string>) {
    && (forall i :: 0 <= i < |ts| ==> ts[i] != "" && Tight(ts[i], false))
    && (forall i :: 0 <= i < |ts| - 1 ==> !Odd(ts[i]))
  }

  lemma {:induction false} PushTight(current: string, c: char, q: bool)
    requires Tight(current, false) && Odd(current) == q && (IsWhitespace(c) ==> q)
    ensures Tight(current + [c], false) && Odd(current + [c]) == (q != (c == '\''))
  {
    TightConcat(current, [c], false);
    OddConcat(current, [c]);
    assert [c][1..] == "";
  }

  lemma {:induction false} ScanTokenised(text: string, q: bool, current: string)
    requires Tight(current, false) && Odd(current) == q
    ensures Tokenised(Scan(text, q, current))
    decreases |text|
  {
    if text != "" {
      var c, rest := text[0], text[1..];
      if c == '\'' {
        PushTight(current, c, q);
        ScanTokenised(rest, !q, current + [c]);
      } else if IsWhitespace(c) && !q {
        ScanTokenised(rest, false, "");
        var first, tail := NonEmpty(current), Scan(rest, false, "");
        assert forall i :: 0 <= i < |tail| ==> (first + tail)[|first| + i] == tail[i];
      } else {
        PushTight(current, c, q);
        ScanTokenised(rest, q, current + [c]);
      }
    }
  }

  function JoinSpaces(ts: seq<string>): string {
    if ts == [] then "" else if |ts| == 1 then ts[0] else ts[0] + (" " + JoinSpaces(ts[1..]))
  }

  /** Tokens joined by single spaces split back into themselves. */
  lemma {:induction false} JoinedTokens(ts: seq<string>)
    requires Tokenised(ts)
    ensures Tokens(JoinSpaces(ts)) == ts
  {
    if |ts| == 1 {
      ScanTight(ts[0], "", false, "");
      assert ts[0] + "" == ts[0] && "" + ts[0] == ts[0];
    } else if |ts| > 1 {
      var tail := " " + JoinSpaces(ts[1..]);
      ScanTight(ts[0], tail, false, "");
      assert "" + ts[0] == ts[0] && tail[1..] == JoinSpaces(ts[1..]);
      assert forall i :: 0 <= i < |ts[1..]| ==> ts[1..][i] == ts[i + 1];
      JoinedTokens(ts[1..]);
      assert ts == [ts[0]] + ts[1..];
    }
  }

  /** For every input, splitting is stable: its tokens joined by single spaces split the same way. */
  lemma TokensStable(input: string)
    ensures Tokens(JoinSpaces(Tokens(input))) == Tokens(input)
  {
    ScanTokenised(input, false, "");
    JoinedTokens(Tokens(input));
  }

  function Flatten(ts: seq<string>): string {
    if ts == [] then "" else ts[0] + Flatten(ts[1..])
  }

  /** The input without its whitespace outside quotes. */
  function Stripped(text: string, q: bool): string {
    if text == "" then ""
    else if text[0] == '\'' then [text[0]] + Stripped(text[1..], !q)
    else if IsWhitespace(text[0]) && !q then Stripped(text[1..], false)
    else [text[0]] + Stripped(text[1..], q)
  }

  lemma {:induction false} FlattenFirst(first: string, ts: seq<string>)
    ensures Flatten(NonEmpty(first) + ts) == first + Flatten(ts)
  {
    if first == "" {
      assert NonEmpty(first) + ts == ts;
    } else {
      assert ([first] + ts)[1..] == ts;
    }
  }

  /** The tokens hold every character of the input except whitespace outside quotes, in order. */
  lemma {:induction false} TokensKeepText(text: string, q: bool, current: string)
    ensures Flatten(Scan(text, q, current)) == current + Stripped(text, q)
    decreases |text|
  {
    if text == "" {
      FlattenFirst(current, []);
      assert NonEmpty(current) + [] == NonEmpty(current);
    } else if text[0] != '\'' && IsWhitespace(text[0]) && !q {
      TokensKeepText(text[1..], false, "");
      FlattenFirst(current, Scan(text[1..], false, ""));
      assert "" + Stripped(text[1..], false) == Stripped(text[1..], false);
    } else {
      var q' := if text[0] == '\'' then !q else q;
      TokensKeepText(text[1..], q', current + [text[0]]);
      Regroup(current, [text[0]], Stripped(text[1..], q'));
    }
  }

  // ----- key and value -----

  /** `Panics` when the quotes are stripped with a slice that is out of range. */
  datatype Parsed = Pair(key: string, value: string) | NotAPair | Panics

  function IndexOfEquals(s: string): int
    ensures -1 <= IndexOfEquals(s) < |s|
    ensures IndexOfEquals(s) >= 0 ==> s[IndexOfEquals(s)] == '='
  {
    if s == "" then -1
    else if s[0] == '=' then 0
    else
      var i := IndexOfEquals(s[1..]);
      if i < 0 then -1 else i + 1
  }

  /** A slice of a string, if its bounds are in order and in range. */
  function Slice(s: string, lo: int, hi: int): Option<string> {
    if 0 <= lo <= hi <= |s| then Some(s[lo..hi]) else None
  }

  function ParseKeyValue(s: string): Parsed {
    var i := IndexOfEquals(s);
    if i < 0 then NotAPair
    else
      var value := s[i + 1..];
      if value != "" && value[0] == '\'' && value[|value| - 1] == '\'' then
        match Slice(value, 1, |value| - 1)
        case Some(inner) => Pair(s[..i], inner)
        case None => Panics
      else Pair(s[..i], value)
  }

  lemma {:induction false} FirstEquals(key: string, rest: string)
    requires '=' !in key
    ensures IndexOfEquals(key + "=" + rest) == |key|
  {
    if key != "" {
      assert (key + "=" + rest)[1..] == key[1..] + "=" + rest;
      FirstEquals(key[1..], rest);
    } else {
      assert key + "=" + rest == "=" + rest;
    }
  }

  function PrintPair(pair: (string, string)): string {
    pair.0 + "=" + ("'" + pair.1 + "'")
  }

  function PrintAll(pairs: seq<(string, string)>): seq<string> {
    if pairs == [] then [] else [PrintPair(pairs[0])] + PrintAll(pairs[1..])
  }

  predicate GoodPair(pair: (string, string)) {
    && (forall i :: 0 <= i < |pair.0| ==> pair.0[i] != '=' && pair.0[i] != '\'' && !IsWhitespace(pair.0[i]))
    && '\'' !in pair.1
  }

  predicate IsQuoted(value: string) {
    value != "" && value[0] == '\'' && value[|value| - 1] == '\''
  }

  lemma ParseAt(key: string, value: string)
    requires '=' !in key
    ensures ParseKeyValue(key + "=" + value) ==
            if !IsQuoted(value) then Pair(key, value)
            else if |value| == 1 then Panics else Pair(key, value[1..|value| - 1])
  {
    var s := key + "=" + value;
    FirstEquals(key, value);
    assert s[|key| + 1..] == value && s[..|key|] == key;
  }

  lemma PairParses(pair: (string, string))
    requires GoodPair(pair)
    ensures ParseKeyValue(PrintPair(pair)) == Pair(pair.0, pair.1)
  {
    var quoted := "'" + pair.1 + "'";
    ParseAt(pair.0, quoted);
    assert quoted[1..|quoted| - 1] == pair.1;
  }

  lemma {:induction false} QuoteFree(s: string, q: bool)
    requires '\'' !in s && (q || forall i :: 0 <= i < |s| ==> !IsWhitespace(s[i]))
    ensures Tight(s, q) && !Odd(s)
  {
    if s != "" { QuoteFree(s[1..], q); }
  }

  lemma PrintedIsToken(pair: (string, string))
    requires GoodPair(pair)
    ensures PrintPair(pair) != "" && Tight(PrintPair(pair), false) && !Odd(PrintPair(pair))
  {
    var (k, v) := pair;
    QuoteFree(k, false);
    QuotedValue(v);
    assert PrintPair(pair) == k + ("='" + (v + "'"));
    TightConcat(k, "='" + (v + "'"), false);
    OddConcat(k, "='" + (v + "'"));
  }

  lemma QuoteMarks()
    ensures Tight("'", true) && Odd("'") && Tight("='", false) && Odd("='")
  {
    assert "='"[1..] == "'" && "'"[1..] == "";
  }

  lemma {:induction false} QuotedValue(v: string)
    requires '\'' !in v
    ensures Tight("='" + (v + "'"), false) && !Odd("='" + (v + "'"))
  {
    QuoteMarks();
    QuoteFree(v, true);
    TightConcat(v, "'", true);
    OddConcat(v, "'");
    TightConcat("='", v + "'", false);
    OddConcat("='", v + "'");
  }

  lemma {:induction false} PrintedAreTokens(pairs: seq<(string, string)>)
    requires forall i :: 0 <= i < |pairs| ==> GoodPair(pairs[i])
    ensures Tokenised(PrintAll(pairs)) && |PrintAll(pairs)| == |pairs|
    ensures forall i :: 0 <= i < |pairs| ==> PrintAll(pairs)[i] == PrintPair(pairs[i]) && !Odd(PrintPair(pairs[i]))
  {
    if pairs != [] {
      PrintedAreTokens(pairs[1..]);
      PrintedIsToken(pairs[0]);
    }
  }

  /** Pairs printed as `key='value'` and joined by spaces come back, whatever spaces and signs the values hold. */
  lemma {:induction false} PairsRoundTrip(pairs: seq<(string, string)>)
    requires forall i :: 0 <= i < |pairs| ==> GoodPair(pairs[i])
    ensures var ts := Tokens(JoinSpaces(PrintAll(pairs)));
            |ts| == |pairs| && forall i :: 0 <= i < |pairs| ==> ParseKeyValue(ts[i]) == Pair(pairs[i].0, pairs[i].1)
  {
    PrintedAreTokens(pairs);
    JoinedTokens(PrintAll(pairs));
    forall i | 0 <= i < |pairs| ensures ParseKeyValue(PrintAll(pairs)[i]) == Pair(pairs[i].0, pairs[i].1) {
      PairParses(pairs[i]);
    }
  }

  lemma {:induction false} NoEquals(s: string)
    ensures IndexOfEquals(s) < 0 <==> '=' !in s
    ensures IndexOfEquals(s) >= 0 ==> '=' !in s[..IndexOfEquals(s)]
  {
    if s != "" {
      NoEquals(s[1..]);
      assert s == [s[0]] + s[1..];
    }
  }

  lemma SplitAtEquals(s: string) returns (key: string, value: string)
    requires '=' in s
    ensures '=' !in key && s == key + "=" + value
  {
    NoEquals(s);
    var i := IndexOfEquals(s);
    key, value := s[..i], s[i + 1..];
  }

  lemma Requote(key: string, value: string)
    requires IsQuoted(value) && |value| >= 2
    ensures key + "=" + value == PrintPair((key, value[1..|value| - 1]))
  {
    assert value == "'" + value[1..|value| - 1] + "'";
  }

  /**
   Any token without `=` is refused; any other splits at its first `=`, losing one pair of quotes around the
   value.
   */
  lemma ParseExactly(s: string)
    ensures ParseKeyValue(s).NotAPair? <==> '=' !in s
    ensures ParseKeyValue(s).Pair? ==>
      var p := ParseKeyValue(s);
      '=' !in p.key && (s == PrintPair((p.key, p.value)) || (s == p.key + "=" + p.value && !IsQuoted(p.value)))
  {
    if '=' in s {
      var key, value := SplitAtEquals(s);
      ParseAt(key, value);
      if IsQuoted(value) && |value| >= 2 { Requote(key, value); }
    } else {
      NoEquals(s);
    }
  }

  lemma LoneQuote(key: string)
    requires '=' !in key
    ensures ParseKeyValue(key + "='").Panics?
  {
    ParseAt(key, "'");
    assert key + "='" == key + "=" + "'";
  }

  /** The quote stripping slices out of bounds exactly when the value is a single quote. */
  lemma PanicsExactly(s: string)
    ensures ParseKeyValue(s).Panics? <==> exists key :: '=' !in key && s == key + "='"
  {
    if ParseKeyValue(s).Panics? {
      ParseExactly(s);
      var key, value := SplitAtEquals(s);
      ParseAt(key, value);
      assert value == "'" && s == key + "='";
    }
    if key :| '=' !in key && s == key + "='" { LoneQuote(key); }
  }

  // ----- which strings are tokens -----

  /** Nothing before, or whitespace outside quotes. */
  predicate Boundary(pre: string) {
    !Odd(pre) && (pre == "" || IsWhitespace(pre[|pre| - 1]))
  }

  /** `t` stands between boundaries and has whitespace only inside its own quotes. */
  predicate TokenAt(pre: string, t: string, post: string) {
    && t != "" && Boundary(pre) && Tight(t, false)
    && (post == "" || (!Odd(t) && IsWhitespace(post[0])))
  }

  lemma OddOne(c: char)
    ensures Odd([c]) == (c == '\'')
  {
    assert [c][1..] == "";
  }

  /** At a boundary, what comes after is split on its own. */
  lemma {:induction false} ScanSplits(pre: string, rest: string, q: bool, current: string)
    requires pre != "" && IsWhitespace(pre[|pre| - 1]) && q == Odd(pre)
    ensures Scan(pre + rest, q, current) == Scan(pre, q, current) + Scan(rest, false, "")
    decreases |pre|
  {
    var c, tail := pre[0], pre[1..];
    assert (pre + rest)[1..] == tail + rest;
    if tail == "" {
      assert tail + rest == rest && Scan("", false, "") == [];
      assert NonEmpty(current) + [] == NonEmpty(current);
    } else if c == '\'' {
      ScanSplits(tail, rest, !q, current + [c]);
    } else if IsWhitespace(c) && !q {
      ScanSplits(tail, rest, false, "");
      Regroup(NonEmpty(current), Scan(tail, false, ""), Scan(rest, false, ""));
    } else {
      ScanSplits(tail, rest, q, current + [c]);
    }
  }

  lemma BoundarySplits(pre: string, rest: string)
    requires Boundary(pre)
    ensures Tokens(pre + rest) == Tokens(pre) + Tokens(rest)
  {
    if pre == "" {
      assert pre + rest == rest && Tokens("") == [];
    } else {
      ScanSplits(pre, rest, false, "");
    }
  }

  lemma TokenStands(pre: string, t: string, post: string)
    requires TokenAt(pre, t, post)
    ensures t in Tokens(pre + (t + post))
  {
    BoundarySplits(pre, t + post);
    ScanTight(t, post, false, "");
    assert "" + t == t;
    assert t in Tokens(t + post);
  }

  /** Where a token of the rest of the input stands, counting the token begun. */
  /** A token further on is still one when whitespace outside quotes stands before. */
  lemma {:induction false} TokenAfterSpace(current: string, c: char, rest: string, pre: string, t: string, post: string)
    requires !Odd(current) && c != '\'' && IsWhitespace(c) && rest == pre + (t + post) && TokenAt(pre, t, post)
    ensures current + ([c] + rest) == ((current + [c]) + pre) + (t + post)
    ensures TokenAt((current + [c]) + pre, t, post)
  {
    OddConcat(current, [c]);
    OddOne(c);
    OddConcat(current + [c], pre);
    Regroup(current, [c], rest);
    Regroup(current + [c], pre, t + post);
  }

  lemma {:induction false} FindToken(text: string, q: bool, current: string, t: string)
    returns (pre: string, post: string)
    requires Tight(current, false) && Odd(current) == q && t in Scan(text, q, current)
    ensures current + text == pre + (t + post) && TokenAt(pre, t, post)
    decreases |text|, 0
  {
    if text == "" {
      pre, post := "", "";
      assert current + text == current && pre + (t + post) == t;
    } else {
      var c, rest := text[0], text[1..];
      assert text == [c] + rest;
      Regroup(current, [c], rest);
      if c == '\'' || !IsWhitespace(c) || q {
        PushTight(current, c, q);
        pre, post := FindToken(rest, if c == '\'' then !q else q, current + [c], t);
      } else if t in NonEmpty(current) {
        pre, post := "", text;
        assert pre + (t + post) == t + post;
      } else {
        pre, post := FindTokenAfter(rest, t);
        TokenAfterSpace(current, c, rest, pre, t, post);
        pre := (current + [c]) + pre;
      }
    }
  }

  lemma {:induction false} FindTokenAfter(rest: string, t: string) returns (pre: string, post: string)
    requires t in Scan(rest, false, "")
    ensures rest == pre + (t + post) && TokenAt(pre, t, post)
    decreases |rest|, 1
  {
    pre, post := FindToken(rest, false, "", t);
    assert "" + rest == rest;
  }

  /** The tokens of an input are exactly its stretches between boundaries. */
  lemma TokensExactly(input: string, t: string)
    ensures t in Tokens(input) <==> exists pre, post :: TokenAt(pre, t, post) && input == pre + (t + post)
  {
    if t in Tokens(input) {
      var pre, post := FindTokenAfter(input, t);
    }
    if pre, post :| TokenAt(pre, t, post) && input == pre + (t + post) {
      TokenStands(pre, t, post);
    }
  }

  // ----- opening a connection -----

  datatype DbType = LibSQL | LibSQLAsync | MuduDB

  function DbTypeOf(name: string): Option<DbType> {
    if name == "LibSQL" then Some(LibSQL)
    else if name == "LibSQLAsync" then Some(LibSQLAsync)
    else if name == "MuduDB" then Some(MuduDB)
    else None
  }

  datatype Outcome =
    | Connect(dbType: DbType, db: string, app: string, ddl: string)
    | ParseError | NoDbPath | Panicked

  /** The token is a pair, and names a database type that exists if it names one. */
  predicate Acceptable(t: string) {
    var p := ParseKeyValue(t);
    p.Pair? && (p.key == "db_type" ==> DbTypeOf(p.value).Some?)
  }

  /** The value of the last token for `key`. */
  function LastValue(ts: seq<string>, key: string): Option<string> {
    if ts == [] then None
    else
      var p := ParseKeyValue(ts[|ts| - 1]);
      if p.Pair? && p.key == key then Some(p.value) else LastValue(ts[..|ts| - 1], key)
  }

  function OrEmpty(o: Option<string>): string {
    if o.Some? then o.value else ""
  }

  function LastType(ts: seq<string>): DbType {
    match LastValue(ts, "db_type")
    case None => LibSQL
    case Some(name) => if DbTypeOf(name).Some? then DbTypeOf(name).value else LibSQL
  }

  /** The last value of each setting, once every token is acceptable. */
  function Opened(ts: seq<string>): Outcome {
    match LastValue(ts, "db")
    case None => NoDbPath
    case Some(db) => Connect(LastType(ts), db, OrEmpty(LastValue(ts, "app")), OrEmpty(LastValue(ts, "ddl")))
  }

  predicate AcceptableUpTo(ts: seq<string>, n: nat) {
    forall j :: 0 <= j < n <= |ts| ==> Acceptable(ts[j])
  }

  /** `i` is the first token that is not acceptable. */
  predicate FirstBad(ts: seq<string>, i: nat) {
    i < |ts| && !Acceptable(ts[i]) && forall j :: 0 <= j < i ==> Acceptable(ts[j])
  }

  lemma FirstBadUnique(ts: seq<string>, i: nat, j: nat)
    requires FirstBad(ts, i) && FirstBad(ts, j)
    ensures i == j
  {
  }

  datatype Settings = Settings(ddl: Option<string>, dbType: DbType, db: Option<string>, app: Option<string>)

  function Settled(ts: seq<string>): Settings {
    Settings(LastValue(ts, "ddl"), LastType(ts), LastValue(ts, "db"), LastValue(ts, "app"))
  }

  /** The settings with one more pair taken in. */
  function Setting(s: Settings, p: Parsed): Settings {
    match p
    case Pair(key, value) =>
      if key == "ddl" then s.(ddl := Some(value))
      else if key == "db_type" && DbTypeOf(value).Some? then s.(dbType := DbTypeOf(value).value)
      else if key == "db" then s.(db := Some(value))
      else if key == "app" then s.(app := Some(value))
      else s
    case _ => s
  }

  function Collected(ts: seq<string>): Settings {
    if ts == [] then Settings(None, LibSQL, None, None)
    else Setting(Collected(ts[..|ts| - 1]), ParseKeyValue(ts[|ts| - 1]))
  }

  lemma {:induction false} LastPush(ts: seq<string>, t: string, key: string)
    ensures LastValue(ts + [t], key) ==
            if ParseKeyValue(t).Pair? && ParseKeyValue(t).key == key then Some(ParseKeyValue(t).value)
            else LastValue(ts, key)
  {
    assert (ts + [t])[..|ts|] == ts;
  }

  lemma SettledPush(ts: seq<string>, t: string)
    requires Acceptable(t)
    ensures Settled(ts + [t]) == Setting(Settled(ts), ParseKeyValue(t))
  {
    LastPush(ts, t, "ddl");
    LastPush(ts, t, "db");
    LastPush(ts, t, "app");
    LastPush(ts, t, "db_type");
  }

  lemma CollectedPush(ts: seq<string>, n: nat)
    requires n < |ts|
    ensures Collected(ts[..n + 1]) == Setting(Collected(ts[..n]), ParseKeyValue(ts[n]))
  {
    assert ts[..n + 1][..n] == ts[..n];
  }

  lemma {:induction false} CollectedIsLast(ts: seq<string>)
    requires forall j :: 0 <= j < |ts| ==> Acceptable(ts[j])
    ensures Collected(ts) == Settled(ts)
    decreases |ts|
  {
    if ts != [] {
      var front, t := SplitLast(ts);
      CollectedIsLast(front);
      SettledPush(front, t);
    }
  }

  /**
   The loop over the tokens: stops at the first that is not acceptable, and collects the last value of each
   setting.
   */
  method Collect(params: seq<string>) returns (stopped: Option<nat>, s: Settings)
    ensures stopped.Some? ==> FirstBad(params, stopped.value)
    ensures stopped.None? ==> AcceptableUpTo(params, |params|) && s == Settled(params)
  {
    s := Settings(None, LibSQL, None, None);
    for n := 0 to |params|
      invariant AcceptableUpTo(params, n) && s == Collected(params[..n])
    {
      var t := params[n];
      if !Acceptable(t) { return Some(n), s; }
      CollectedPush(params, n);
      s := Setting(s, ParseKeyValue(t));
    }
    assert params[..|params|] == params;
    CollectedIsLast(params);
    stopped := None;
  }

  /** The first bad token decides how opening fails; without one, the last value of each setting is used. */
  method ConnectWith(input: string) returns (o: Outcome)
    ensures var ts := Tokens(input);
            && (forall i: nat :: FirstBad(ts, i) ==> o == if ParseKeyValue(ts[i]).Panics? then Panicked else ParseError)
            && ((forall i :: 0 <= i < |ts| ==> Acceptable(ts[i])) ==> o == Opened(ts))
  {
    var params := ParseDbConnectString(input);
    var stopped, s := Collect(params);
    if stopped.Some? {
      o := if ParseKeyValue(params[stopped.value]).Panics? then Panicked else ParseError;
      forall i: nat | FirstBad(params, i) ensures i == stopped.value {
        FirstBadUnique(params, i, stopped.value);
      }
    } else if s.db.None? {
      o := NoDbPath;
    } else {
      o := Connect(s.dbType, s.db.value, OrEmpty(s.app), OrEmpty(s.ddl));
    }
  }

  predicate Names(t: string, key: string) {
    ParseKeyValue(t).Pair? && ParseKeyValue(t).key == key
  }

  predicate Unset(ts: seq<string>, key: string) {
    forall i :: 0 <= i < |ts| ==> !Names(ts[i], key)
  }

  /** Token `i` sets `key` to `value`, and no later token sets it again. */
  predicate LastSets(ts: seq<string>, i: int, key: string, value: string) {
    && 0 <= i < |ts| && ParseKeyValue(ts[i]) == Pair(key, value)
    && forall j :: i < j < |ts| ==> !Names(ts[j], key)
  }

  ghost predicate IsSetTo(ts: seq<string>, key: string, value: string) {
    exists i :: LastSets(ts, i, key, value)
  }

  lemma {:induction false} LastValueExact(ts: seq<string>, key: string)
    ensures match LastValue(ts, key) case None => Unset(ts, key) case Some(value) => IsSetTo(ts, key, value)
    decreases |ts|
  {
    if ts != [] {
      var front, t := SplitLast(ts);
      LastValueExact(front, key);
      if Names(t, key) {
        assert LastSets(ts, |front|, key, ParseKeyValue(t).value);
      } else if LastValue(front, key).Some? {
        var value := LastValue(front, key).value;
        var i :| LastSets(front, i, key, value);
        assert LastSets(ts, i, key, value);
      }
    }
  }

  function TypeName(t: DbType): string {
    match t case LibSQL => "LibSQL" case LibSQLAsync => "LibSQLAsync" case MuduDB => "MuduDB"
  }

  lemma TypesByName(name: string, t: DbType)
    ensures DbTypeOf(name) == Some(t) <==> name == TypeName(t)
  {
    assert "LibSQL" != "MuduDB" by { assert "LibSQL"[0] != "MuduDB"[0]; }
    assert |"LibSQLAsync"| != |"LibSQL"| && |"LibSQLAsync"| != |"MuduDB"|;
  }

  /** The setting's last value, or the default when it is not set. */
  ghost predicate Settles(ts: seq<string>, key: string, value: string, default: string) {
    IsSetTo(ts, key, value) || (Unset(ts, key) && value == default)
  }

  /**
   With acceptable tokens only, opening fails exactly when no database path is set; otherwise it connects
   to the last one set, with the last type named, LibSQL if none is, and the last or empty app and schema.
   */
  lemma OpenedExact(ts: seq<string>)
    requires forall j :: 0 <= j < |ts| ==> Acceptable(ts[j])
    ensures if Unset(ts, "db") then Opened(ts) == NoDbPath
            else
              && Opened(ts).Connect? && IsSetTo(ts, "db", Opened(ts).db)
              && Settles(ts, "app", Opened(ts).app, "") && Settles(ts, "ddl", Opened(ts).ddl, "")
              && Settles(ts, "db_type", TypeName(Opened(ts).dbType), "LibSQL")
  {
    LastValueExact(ts, "db");
    LastValueExact(ts, "app");
    LastValueExact(ts, "ddl");
    LastTypeExact(ts);
    if IsSetTo(ts, "db", OrEmpty(LastValue(ts, "db"))) {
      var i :| LastSets(ts, i, "db", OrEmpty(LastValue(ts, "db")));
      assert Names(ts[i], "db");
    }
  }

  lemma LastTypeExact(ts: seq<string>)
    requires forall j :: 0 <= j < |ts| ==> Acceptable(ts[j])
    ensures Settles(ts, "db_type", TypeName(LastType(ts)), "LibSQL")
  {
    LastValueExact(ts, "db_type");
    if LastValue(ts, "db_type").Some? {
      var name := LastValue(ts, "db_type").value;
      var i :| LastSets(ts, i, "db_type", name);
      assert Acceptable(ts[i]);
      TypesByName(name, LastType(ts));
    }
  }

  /** `k='` is one token, and opening a connection with it panics. */
  lemma LoneQuotePanics()
    ensures Tokens("k='") == ["k='"] && FirstBad(Tokens("k='"), 0) && ParseKeyValue(Tokens("k='")[0]).Panics?
  {
    var t := "k='";
    assert t[1..] == "='" && "='"[1..] == "'" && "'"[1..] == "";
    assert Tight("'", false) && Tight("='", false) && Tight(t, false);
    ScanTight(t, "", false, "");
    assert t + "" == t && "" + t == t;
    LoneQuote("k");
    assert "k" + "='" == t;
  }

  /** For every input: some token panics exactly when a stretch between boundaries is a key, `=` and one quote. */
  lemma PanickingTokenExactly(input: string)
    ensures (exists t :: t in Tokens(input) && ParseKeyValue(t).Panics?)
            <==> exists pre, key, post ::
                   '=' !in key && TokenAt(pre, key + "='", post) && input == pre + (key + "='" + post)
  {
    if t :| t in Tokens(input) && ParseKeyValue(t).Panics? {
      PanicsExactly(t);
      var key :| '=' !in key && t == key + "='";
      var pre, post := FindTokenAfter(input, t);
      assert TokenAt(pre, key + "='", post);
    }
    if pre, key, post :| '=' !in key && TokenAt(pre, key + "='", post) && input == pre + (key + "='" + post) {
      TokenStands(pre, key + "='", post);
      LoneQuote(key);
    }
  }
}
