/** Object-relative paths of the local fs emulation: normalisation, what it accepts, and where a path leads. */
module EntryPath {
  import opened Sequences
  import opened Wrappers

  datatype PathError = InvalidFilename | PermissionDenied

  // ----- components -----

  function Split(s: string): (r: seq<string>)
    ensures |r| >= 1
  {
    if s == "" then [""]
    else
      var rest := Split(s[1..]);
      if s[0] == '/' then [""] + rest else [[s[0]] + rest[0]] + rest[1..]
  }

  function Join(cs: seq<string>): string {
    if cs == [] then "" else if |cs| == 1 then cs[0] else cs[0] + "/" + Join(cs[1..])
  }

  lemma {:induction false} JoinGrows(c: char, first: string, others: seq<string>)
    ensures Join([[c] + first] + others) == [c] + Join([first] + others)
    ensures others != [] ==> Join([""] + others) == "/" + Join(others)
  {
    assert ([[c] + first] + others)[1..] == others
           && ([first] + others)[1..] == others && ([""] + others)[1..] == others;
  }

  lemma {:induction false} JoinSplit(s: string)
    ensures Join(Split(s)) == s
    decreases |s|
  {
    if s != "" {
      var c, tail := SplitFirst(s);
      JoinSplit(tail);
      var first, others := SplitFirst(Split(tail));
      JoinGrows(c, first, if c == '/' then Split(tail) else others);
    }
  }

  lemma {:induction false} SplitPrefix(a: string, b: string)
    requires '/' !in a
    ensures Split(a + "/" + b) == [a] + Split(b)
    ensures Split(a) == [a]
  {
    if a == "" {
      assert a + "/" + b == "/" + b;
      assert ("/" + b)[1..] == b;
    } else {
      assert (a + "/" + b)[1..] == a[1..] + "/" + b;
      SplitPrefix(a[1..], b);
      assert a == [a[0]] + a[1..];
    }
  }

  lemma {:induction false} SplitJoin(cs: seq<string>)
    requires cs != [] && forall c :: c in cs ==> '/' !in c
    ensures Split(Join(cs)) == cs
  {
    if |cs| == 1 {
      SplitPrefix(cs[0], "");
    } else {
      SplitPrefix(cs[0], Join(cs[1..]));
      SplitJoin(cs[1..]);
      assert cs == [cs[0]] + cs[1..];
    }
  }

  lemma {:induction false} SplitChars(s: string, c: string)
    requires c in Split(s)
    ensures '/' !in c
    ensures forall x :: x in c ==> x in s
  {
    if s != "" {
      var rest := Split(s[1..]);
      if s[0] == '/' {
        if c in rest { SplitChars(s[1..], c); }
      } else if c == [s[0]] + rest[0] {
        SplitChars(s[1..], rest[0]);
      } else {
        SplitChars(s[1..], c);
      }
    }
  }

  /** The first component is what stands before the first slash. */
  lemma {:induction false} FirstComponent(s: string, first: string)
    ensures Split(s)[0] == first <==>
            '/' !in first && (s == first || exists rest :: s == first + "/" + rest)
  {
    if Split(s)[0] == first {
      SplitChars(s, first);
      JoinSplit(s);
      if |Split(s)| > 1 { assert s == first + "/" + Join(Split(s)[1..]); }
    } else if '/' !in first {
      SplitPrefix(first, "");
      if rest :| s == first + "/" + rest { SplitPrefix(first, rest); }
    }
  }

  // ----- normalisation -----

  predicate IsName(c: string) {
    c != "" && c != "." && c != ".."
  }

  /** One step of path resolution on a stack of names. */
  function Enter(place: seq<string>, c: string): Result<seq<string>, PathError> {
    if c == "" then Failure(InvalidFilename)
    else if c == "." then Success(place)
    else if c == ".." then if place == [] then Failure(PermissionDenied) else Success(place[..|place| - 1])
    else Success(place + [c])
  }

  function Walk(cs: seq<string>): Result<seq<string>, PathError> {
    if cs == [] then Success([])
    else
      var place :- Walk(cs[..|cs| - 1]);
      Enter(place, cs[|cs| - 1])
  }

  function Normalized(path: string): Result<string, PathError> {
    if path == "" then Success("")
    else if path[0] == '/' || '\0' in path then Failure(InvalidFilename)
    else
      var place :- Walk(Split(path));
      Success(Join(place))
  }

  lemma WalkPush(cs: seq<string>, k: nat, place: seq<string>)
    requires k < |cs| && Walk(cs[..k]) == Success(place)
    ensures Walk(cs[..k + 1]) == Enter(place, cs[k])
  {
    assert cs[..k + 1][..k] == cs[..k];
  }

  method NormalizeEntryPath(path: string) returns (r: Result<string, PathError>)
    ensures r == Normalized(path)
  {
    if path == "" { return Success(""); }
    if path[0] == '/' { return Failure(InvalidFilename); }
    if '\0' in path { return Failure(InvalidFilename); }
    var parts := Split(path);
    var components: seq<string> := [];
    for i := 0 to |parts|
      invariant Walk(parts[..i]) == Success(components)
    {
      WalkPush(parts, i, components);
      match parts[i] {
        case "" => WalkFails(parts, i + 1); return Failure(InvalidFilename);
        case "." =>
        case ".." =>
          if components == [] {
            WalkFails(parts, i + 1);
            return Failure(PermissionDenied);
          }
          components := components[..|components| - 1];
        case name => components := components + [name];
      }
    }
    assert parts[..|parts|] == parts;
    r := Success(Join(components));
  }

  lemma {:induction false} WalkFails(cs: seq<string>, k: nat)
    requires k <= |cs| && Walk(cs[..k]).Failure?
    ensures Walk(cs) == Walk(cs[..k])
    decreases |cs| - k
  {
    if k == |cs| {
      assert cs[..k] == cs;
    } else {
      assert cs[..k + 1][..k] == cs[..k];
      WalkFails(cs, k + 1);
    }
  }

  function Ups(cs: seq<string>): nat {
    if cs == [] then 0 else Ups(cs[..|cs| - 1]) + if cs[|cs| - 1] == ".." then 1 else 0
  }

  function Names(cs: seq<string>): nat {
    if cs == [] then 0 else Names(cs[..|cs| - 1]) + if IsName(cs[|cs| - 1]) then 1 else 0
  }

  /** No prefix climbs above the place it started from. */
  ghost predicate StaysInside(cs: seq<string>) {
    forall k :: 0 <= k <= |cs| ==> Ups(cs[..k]) <= Names(cs[..k])
  }

  /** One component more: how deep it leads, and that only names remain. */
  lemma EnterDepth(place: seq<string>, c: string, seen: seq<string>)
    requires Enter(place, c).Success? && forall x :: x in place ==> IsName(x) && x in seen
    ensures |Enter(place, c).value| == |place| + (if IsName(c) then 1 else 0) - (if c == ".." then 1 else 0)
    ensures forall x :: x in Enter(place, c).value ==> IsName(x) && x in seen + [c]
    ensures c != ""
  {
  }

  /** The depth reached is the number of names minus the number of `..`, and only names of the path remain. */
  lemma {:induction false} WalkDepth(cs: seq<string>)
    requires Walk(cs).Success?
    ensures |Walk(cs).value| == Names(cs) - Ups(cs)
    ensures forall c :: c in Walk(cs).value ==> IsName(c) && c in cs
    ensures "" !in cs
    decreases |cs|
  {
    if cs != [] {
      var front, c := SplitLast(cs);
      WalkDepth(front);
      EnterDepth(Walk(front).value, c, front);
    }
  }

  lemma {:induction false} WalkAccepts(cs: seq<string>)
    ensures Walk(cs).Success? <==> StaysInside(cs) && "" !in cs
  {
    if Walk(cs).Success? {
      WalkDepth(cs);
      forall k | 0 <= k <= |cs| ensures Ups(cs[..k]) <= Names(cs[..k]) {
        if Walk(cs[..k]).Failure? { WalkFails(cs, k); }
        WalkDepth(cs[..k]);
      }
    } else if StaysInside(cs) && "" !in cs {
      assert cs[..|cs|] == cs;
      WalkFrom(cs, |cs|);
    }
  }

  lemma {:induction false} WalkFrom(cs: seq<string>, k: nat)
    requires StaysInside(cs) && "" !in cs && k <= |cs|
    ensures Walk(cs[..k]).Success?
  {
    if k > 0 {
      WalkFrom(cs, k - 1);
      WalkDepth(cs[..k - 1]);
      assert cs[..k][..k - 1] == cs[..k - 1];
      assert cs[k - 1] in cs;
    }
  }

  /** Some prefix without empty components climbs out. */
  ghost predicate Escapes(cs: seq<string>) {
    exists k :: 0 <= k <= |cs| && "" !in cs[..k] && Ups(cs[..k]) > Names(cs[..k])
  }

  /**
   A path escapes, rather than being malformed, exactly when some prefix without empty components climbs out
   first.
   */
  lemma {:induction false} EscapeExactly(cs: seq<string>)
    ensures Walk(cs) == Failure(PermissionDenied) <==> Escapes(cs)
  {
    if Walk(cs) == Failure(PermissionDenied) {
      var k := FirstEscape(cs);
    } else if k: int :| 0 <= k <= |cs| && "" !in cs[..k] && Ups(cs[..k]) > Names(cs[..k]) {
      EscapeAt(cs, k);
    }
  }

  lemma {:induction false} EscapeAt(cs: seq<string>, k: nat)
    requires k <= |cs| && "" !in cs[..k] && Ups(cs[..k]) > Names(cs[..k])
    ensures Walk(cs) == Failure(PermissionDenied)
  {
    if Walk(cs[..k]).Success? { WalkDepth(cs[..k]); }
    NoEmptyNoInvalid(cs[..k]);
    WalkFails(cs, k);
  }

  lemma {:induction false} NoEmptyNoInvalid(cs: seq<string>)
    requires "" !in cs
    ensures Walk(cs).Failure? ==> Walk(cs) == Failure(PermissionDenied)
  {
    if cs != [] { NoEmptyNoInvalid(cs[..|cs| - 1]); }
  }

  lemma {:induction false} FirstEscape(cs: seq<string>) returns (k: nat)
    requires Walk(cs) == Failure(PermissionDenied)
    ensures k <= |cs| && "" !in cs[..k] && Ups(cs[..k]) > Names(cs[..k])
  {
    var front := cs[..|cs| - 1];
    if Walk(front).Failure? {
      k := FirstEscape(front);
      assert front[..k] == cs[..k];
    } else {
      k := |cs|;
      assert cs[..k] == cs == front + [cs[|cs| - 1]];
      WalkDepth(front);
    }
  }

  /** What a normalised entry looks like: the root, or plain names separated by single slashes. */
  ghost predicate IsNormal(entry: string) {
    entry == "" || ('\0' !in entry && forall c :: c in Split(entry) ==> IsName(c))
  }

  lemma {:induction false} JoinChars(cs: seq<string>, x: char)
    requires x in Join(cs)
    ensures x == '/' || exists c :: c in cs && x in c
  {
    if |cs| > 1 {
      if x in cs[0] {
        assert cs[0] in cs;
      } else if x != '/' {
        JoinChars(cs[1..], x);
      }
    } else if |cs| == 1 {
      assert cs[0] in cs;
    }
  }

  lemma {:induction false} WalkNames(cs: seq<string>)
    requires forall c :: c in cs ==> IsName(c)
    ensures Walk(cs) == Success(cs)
  {
    if cs != [] {
      WalkNames(cs[..|cs| - 1]);
      assert cs == cs[..|cs| - 1] + [cs[|cs| - 1]];
      assert cs[|cs| - 1] in cs;
    }
  }

  /** How far below the object's root an entry lies. */
  function Depth(entry: string): nat {
    if entry == "" then 0 else |Split(entry)|
  }

  /** The components of a walk hold no separator, so joining them loses nothing. */
  lemma {:induction false} WalkPlain(path: string)
    requires Walk(Split(path)).Success?
    ensures var place := Walk(Split(path)).value;
            && (forall c :: c in place ==> IsName(c) && '/' !in c && (forall x :: x in c ==> x in path))
            && (place == [] <==> Join(place) == "") && (place != [] ==> Split(Join(place)) == place)
  {
    var cs := Split(path);
    var place := Walk(cs).value;
    WalkDepth(cs);
    forall c | c in place ensures '/' !in c && forall x :: x in c ==> x in path {
      SplitChars(path, c);
    }
    if place != [] {
      SplitJoin(place);
      assert place[0] in place;
    }
  }

  /**
   Acceptance is decided by counting: no empty component, and never more `..` than names so far; and so is
   the depth.
   */
  lemma {:induction false} AcceptsExactly(path: string)
    ensures Normalized(path).Success? <==>
            path == "" || (path[0] != '/' && '\0' !in path && "" !in Split(path) && StaysInside(Split(path)))
    ensures Normalized(path).Success? && path != "" ==>
            Depth(Normalized(path).value) == Names(Split(path)) - Ups(Split(path))
  {
    WalkAccepts(Split(path));
    if Normalized(path).Success? && path != "" {
      WalkDepth(Split(path));
      WalkPlain(path);
    }
  }

  /** A path that is not accepted is an escape exactly when it is well formed up to where it climbs out. */
  lemma {:induction false} RefusalExactly(path: string)
    requires Normalized(path).Failure?
    ensures Normalized(path).error == PermissionDenied <==> path[0] != '/' && '\0' !in path && Escapes(Split(path))
  {
    if path[0] != '/' && '\0' !in path {
      EscapeExactly(Split(path));
      assert Normalized(path).error == Walk(Split(path)).error;
    }
  }

  lemma NormalIsFixed(entry: string)
    requires IsNormal(entry)
    ensures Normalized(entry) == Success(entry)
  {
    if entry != "" {
      WalkNames(Split(entry));
      JoinSplit(entry);
      assert Split(entry)[0] in Split(entry);
    }
  }

  /** A result has no `.`, `..` or empty component, and normalising it again changes nothing. */
  lemma NormalizedIsNormal(path: string)
    requires Normalized(path).Success?
    ensures IsNormal(Normalized(path).value)
    ensures Normalized(Normalized(path).value) == Normalized(path)
  {
    if path != "" {
      var place := Walk(Split(path)).value;
      WalkPlain(path);
      if '\0' in Join(place) { JoinChars(place, '\0'); }
    }
    NormalIsFixed(Normalized(path).value);
  }

  // ----- meaning of a path -----

  /** Step-by-step resolution in any tree given by `child` and `parent`. */
  ghost function Resolve<N>(child: (N, string) -> N, parent: N -> N, root: N, cs: seq<string>): N {
    if cs == [] then root
    else
      var at := Resolve(child, parent, root, cs[..|cs| - 1]);
      var c := cs[|cs| - 1];
      if c == "." then at else if c == ".." then parent(at) else child(at, c)
  }

  lemma {:induction false} WalkResolves<N(!new)>(child: (N, string) -> N, parent: N -> N, root: N, cs: seq<string>)
    requires forall n, c :: IsName(c) ==> parent(child(n, c)) == n
    requires Walk(cs).Success?
    ensures Resolve(child, parent, root, Walk(cs).value) == Resolve(child, parent, root, cs)
  {
    if cs != [] {
      var front, c := cs[..|cs| - 1], cs[|cs| - 1];
      var place := Walk(front).value;
      WalkResolves(child, parent, root, front);
      WalkDepth(front);
      if c == ".." {
        var last := place[|place| - 1];
        assert last in place;
      } else if c != "." {
        assert (place + [c])[..|place|] == place;
      }
    }
  }

  /** In every tree whose `..` undoes a step down, the normalised path leads where the original did. */
  lemma {:induction false} SamePlace<N(!new)>(child: (N, string) -> N, parent: N -> N, root: N, path: string)
    requires forall n, c :: IsName(c) ==> parent(child(n, c)) == n
    requires path != "" && Normalized(path).Success?
    ensures var entry := Normalized(path).value;
            Resolve(child, parent, root, Split(path))
            == if entry == "" then root else Resolve(child, parent, root, Split(entry))
  {
    var place := Walk(Split(path)).value;
    WalkResolves(child, parent, root, Split(path));
    WalkDepth(Split(path));
    if place != [] {
      forall c | c in place ensures '/' !in c { SplitChars(path, c); }
      SplitJoin(place);
      assert place[0] in place;
    }
  }
}
