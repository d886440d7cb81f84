/**
 The flat host layout of the local fs emulation: `{oidhex}.1` for an object's own content and
 `{oidhex}.1.{entry}` for its entries, and the listing of an object's root from host names.
 */
module HostLayout {
  import opened Wrappers
  import opened EntryPath

  const OID_LIMIT: nat := 0x1_0000_0000_0000_0000_0000_0000_0000_0000

  type Oid = n: nat | n < OID_LIMIT

  /** A path below the fs root, one host name per component. */
  type HostPath = seq<string>

  function Pow16(w: nat): nat {
    if w == 0 then 1 else 16 * Pow16(w - 1)
  }

  function HexDigit(d: nat): char
    requires d < 16
  {
    "0123456789abcdef"[d]
  }

  /** The `w` lowest hexadecimal digits of `n`, zero-padded. */
  function Hex(n: nat, w: nat): (s: string)
    ensures |s| == w
  {
    if w == 0 then "" else Hex(n / 16, w - 1) + [HexDigit(n % 16)]
  }

  lemma DigitsDiffer(a: nat, b: nat)
    requires a < 16 && b < 16
    ensures HexDigit(a) == HexDigit(b) <==> a == b
  {
  }

  lemma {:induction false} HexInjective(m: nat, n: nat, w: nat)
    requires m < Pow16(w) && n < Pow16(w) && Hex(m, w) == Hex(n, w)
    ensures m == n
  {
    if w > 0 {
      assert Hex(m, w)[..w - 1] == Hex(m / 16, w - 1);
      assert Hex(n, w)[..w - 1] == Hex(n / 16, w - 1);
      HexInjective(m / 16, n / 16, w - 1);
      assert Hex(m, w)[w - 1] == HexDigit(m % 16) && Hex(n, w)[w - 1] == HexDigit(n % 16);
      DigitsDiffer(m % 16, n % 16);
    }
  }

  lemma OidFitsHex()
    ensures Pow16(32) == OID_LIMIT
  {
    assert Pow16(8) == 0x1_0000_0000;
    assert Pow16(16) == 0x1_0000_0000_0000_0000;
    assert Pow16(24) == 0x1_0000_0000_0000_0000_0000_0000;
  }

  function ObjectPrefix(oid: Oid): string {
    Hex(oid, 32) + ".1"
  }

  function ContentPath(oid: Oid, entry: string): HostPath {
    var components := Split(entry);
    [ObjectPrefix(oid) + if components[0] == "" then "" else "." + components[0]] + components[1..]
  }

  function HexDigitValue(c: char): nat {
    if '0' <= c <= '9' then c as nat - '0' as nat else if 'a' <= c <= 'f' then 10 + (c as nat - 'a' as nat) else 0
  }

  /** Reads lower-case hexadecimal digits. */
  function HexValue(s: string): nat {
    if s == "" then 0 else 16 * HexValue(s[..|s| - 1]) + HexDigitValue(s[|s| - 1])
  }

  lemma HexDigitReads(d: nat)
    requires d < 16
    ensures HexDigitValue(HexDigit(d)) == d
  {
  }

  /** An object id reads back from its hexadecimal digits. */
  lemma {:induction false} HexRoundTrip(n: nat, w: nat)
    requires n < Pow16(w)
    ensures HexValue(Hex(n, w)) == n
  {
    if w > 0 {
      HexRoundTrip(n / 16, w - 1);
      HexDigitReads(n % 16);
      assert Hex(n, w)[w - 1] == HexDigit(n % 16);
      assert Hex(n, w)[..w - 1] == Hex(n / 16, w - 1);
    }
  }

  lemma {:induction false} JoinPrefixed(a: string, first: string, others: seq<string>)
    ensures Join([a + first] + others) == a + Join([first] + others)
  {
    assert ([a + first] + others)[1..] == others && ([first] + others)[1..] == others;
    if others != [] { assert (a + first) + "/" + Join(others) == a + (first + "/" + Join(others)); }
  }

  lemma {:induction false} LayoutIs(oid: Oid, entry: string)
    requires entry == "" || entry[0] != '/'
    ensures Join(ContentPath(oid, entry)) == Hex(oid, 32) + (if entry == "" then ".1" else ".1." + entry)
  {
    var cs := Split(entry);
    var first, others := cs[0], cs[1..];
    JoinSplit(entry);
    if entry != "" {
      assert first != "" && cs == [first] + others;
      JoinPrefixed(ObjectPrefix(oid) + ".", first, others);
      assert ObjectPrefix(oid) + ("." + first) == (ObjectPrefix(oid) + ".") + first;
      assert (Hex(oid, 32) + ".1" + ".") + entry == Hex(oid, 32) + (".1." + entry);
    }
  }

  /** The host path of an entry is 32 digits that read as the object id, `.1`, and a dot and the entry as it is. */
  lemma ContentPathLayout(oid: Oid, entry: string)
    requires entry == "" || entry[0] != '/'
    ensures var path := Join(ContentPath(oid, entry));
            && |path| >= 32 && HexValue(path[..32]) == oid
            && path[32..] == if entry == "" then ".1" else ".1." + entry
  {
    OidFitsHex();
    HexRoundTrip(oid, 32);
    LayoutIs(oid, entry);
    var tail := if entry == "" then ".1" else ".1." + entry;
    assert (Hex(oid, 32) + tail)[..32] == Hex(oid, 32) && (Hex(oid, 32) + tail)[32..] == tail;
  }

  lemma PrefixDecides(a: Oid, b: Oid, s: string, t: string)
    requires ObjectPrefix(a) + s == ObjectPrefix(b) + t
    ensures a == b && s == t
  {
    assert (ObjectPrefix(a) + s)[..32] == Hex(a, 32);
    assert (ObjectPrefix(b) + t)[..32] == Hex(b, 32);
    OidFitsHex();
    HexInjective(a, b, 32);
    assert (ObjectPrefix(a) + s)[34..] == s;
    assert (ObjectPrefix(b) + t)[34..] == t;
  }

  /** Distinct objects, and distinct normalised entries of one object, never share a host path. */
  lemma ContentPathInjective(a: Oid, x: string, b: Oid, y: string)
    requires IsNormal(x) && IsNormal(y)
    requires ContentPath(a, x) == ContentPath(b, y)
    ensures a == b && x == y
  {
    var cx, cy := Split(x), Split(y);
    var sx := if cx[0] == "" then "" else "." + cx[0];
    var sy := if cy[0] == "" then "" else "." + cy[0];
    assert ContentPath(a, x)[0] == ContentPath(b, y)[0];
    PrefixDecides(a, b, sx, sy);
    assert cx[0] == cy[0] by {
      assert cx[0] != "" ==> sx[1..] == cx[0];
      assert cy[0] != "" ==> sy[1..] == cy[0];
    }
    assert ContentPath(a, x)[1..] == cx[1..] && ContentPath(b, y)[1..] == cy[1..];
    assert cx == [cx[0]] + cx[1..] && cy == [cy[0]] + cy[1..];
    JoinSplit(x);
    JoinSplit(y);
  }

  // ----- listing -----

  datatype Dirent = Dirent(name: string, isDir: bool, length: nat)

  /** The first path segment a host name contributes to the root listing of `oid`, if any. */
  function FirstSegment(oid: Oid, name: string): Option<string> {
    var dotted := ObjectPrefix(oid) + ".";
    if !(dotted <= name) then None
    else
      var first := Split(name[|dotted|..])[0];
      if first == "" then None else Some(first)
  }

  /** A host name contributes what stands after the object's dotted prefix, up to a slash, unless that is nothing. */
  lemma FirstSegmentExactly(oid: Oid, name: string, n: string)
    ensures FirstSegment(oid, name) == Some(n) <==>
            && n != "" && '/' !in n
            && exists rest ::
                 name == (ObjectPrefix(oid) + ".") + rest && (rest == n || exists more :: rest == n + "/" + more)
  {
    var dotted := ObjectPrefix(oid) + ".";
    if dotted <= name {
      var rest := name[|dotted|..];
      assert name == dotted + rest;
      FirstComponent(rest, n);
      forall other | name == dotted + other ensures other == rest {
        assert (dotted + other)[|dotted|..] == other;
      }
    }
  }

  /** A stored path contributes to the listing of its own object only, under its entry's first component. */
  lemma {:induction false} OnlyOwnNames(oid: Oid, other: Oid, entry: string)
    requires IsNormal(entry)
    ensures FirstSegment(oid, ContentPath(other, entry)[0]) ==
            if oid == other && entry != "" then Some(Split(entry)[0]) else None
  {
    var cs := Split(entry);
    var name := ContentPath(other, entry)[0];
    var dotted := ObjectPrefix(oid) + ".";
    if dotted <= name {
      assert name == dotted + name[|dotted|..];
      assert name == ObjectPrefix(oid) + ("." + name[|dotted|..]);
      PrefixDecides(other, oid, if cs[0] == "" then "" else "." + cs[0], "." + name[|dotted|..]);
    }
    assert cs[0] in cs;
    if oid == other && entry != "" {
      assert name == dotted + cs[0];
      SplitChars(entry, cs[0]);
      SplitPrefix(cs[0], "");
    }
  }

  /** Code point order, which is also the byte order of the encoded names. */
  predicate LexLess(a: string, b: string) {
    b != "" && (a == "" || a[0] < b[0] || (a[0] == b[0] && LexLess(a[1..], b[1..])))
  }

  lemma {:induction false} LexTotal(a: string, b: string)
    ensures LexLess(a, b) || a == b || LexLess(b, a)
    ensures !(LexLess(a, b) && LexLess(b, a))
  {
    if a != "" && b != "" {
      LexTotal(a[1..], b[1..]);
      assert a == [a[0]] + a[1..] && b == [b[0]] + b[1..];
    }
  }

  lemma {:induction false} LexTransitive(a: string, b: string, c: string)
    requires LexLess(a, b) && LexLess(b, c)
    ensures LexLess(a, c)
  {
    if a != "" && a[0] == b[0] == c[0] {
      LexTransitive(a[1..], b[1..], c[1..]);
    }
  }

  ghost predicate Ascending(entries: seq<Dirent>) {
    forall i, j :: 0 <= i < j < |entries| ==> LexLess(entries[i].name, entries[j].name)
  }

  /** `n` is listed. */
  predicate Lists(entries: seq<Dirent>, n: string) {
    exists i :: 0 <= i < |entries| && entries[i].name == n
  }

  /** Insertion into the ordered map of entries; an existing name is replaced. */
  function Put(entries: seq<Dirent>, d: Dirent): seq<Dirent> {
    if entries == [] || LexLess(d.name, entries[0].name) then [d] + entries
    else if entries[0].name == d.name then [d] + entries[1..]
    else [entries[0]] + Put(entries[1..], d)
  }

  lemma {:induction false} PutMembers(entries: seq<Dirent>, d: Dirent, e: Dirent)
    requires Ascending(entries)
    ensures e in Put(entries, d) <==> e == d || (e in entries && e.name != d.name)
  {
    if entries != [] {
      LexTotal(d.name, d.name);
      if LexLess(d.name, entries[0].name) {
        forall i | 0 <= i < |entries| ensures entries[i].name != d.name {
          if i > 0 { LexTransitive(d.name, entries[0].name, entries[i].name); }
        }
      } else if entries[0].name == d.name {
        assert forall i :: 1 <= i < |entries| ==> LexLess(entries[0].name, entries[i].name);
        assert entries == [entries[0]] + entries[1..];
      } else {
        PutMembers(entries[1..], d, e);
        assert entries == [entries[0]] + entries[1..];
      }
    }
  }

  lemma {:induction false} PutAscending(entries: seq<Dirent>, d: Dirent)
    requires Ascending(entries)
    ensures Ascending(Put(entries, d))
  {
    if entries != [] {
      if LexLess(d.name, entries[0].name) {
        forall i | 0 <= i < |entries| ensures LexLess(d.name, entries[i].name) {
          if i > 0 { LexTransitive(d.name, entries[0].name, entries[i].name); }
        }
      } else if entries[0].name != d.name {
        var rest := Put(entries[1..], d);
        PutAscending(entries[1..], d);
        LexTotal(d.name, entries[0].name);
        forall j | 0 <= j < |rest| ensures LexLess(entries[0].name, rest[j].name) {
          PutMembers(entries[1..], d, rest[j]);
        }
      }
    }
  }

  lemma {:induction false} PutLists(entries: seq<Dirent>, d: Dirent, n: string)
    requires Ascending(entries)
    ensures Lists(Put(entries, d), n) <==> n == d.name || Lists(entries, n)
  {
    if i :| 0 <= i < |entries| && entries[i].name == n {
      PutMembers(entries, d, entries[i]);
    }
    PutMembers(entries, d, d);
    if i :| 0 <= i < |Put(entries, d)| && Put(entries, d)[i].name == n {
      PutMembers(entries, d, Put(entries, d)[i]);
    }
  }

  /** Host names are distinct and contain no separator. */
  predicate HostNames(children: seq<Dirent>) {
    && (forall i :: 0 <= i < |children| ==> '/' !in children[i].name)
    && (forall i, j :: 0 <= i < j < |children| ==> children[i].name != children[j].name)
  }

  /** The entry that child `i` contributes, if it contributes one. */
  function EntryOf(oid: Oid, child: Dirent): Option<Dirent> {
    match FirstSegment(oid, child.name)
    case None => None
    case Some(n) => Some(Dirent(n, child.isDir, child.length))
  }

  /** On host names, the listed name determines the child. */
  lemma SegmentDecides(oid: Oid, a: Dirent, b: Dirent)
    requires '/' !in a.name && '/' !in b.name
    requires FirstSegment(oid, a.name).Some? && FirstSegment(oid, a.name) == FirstSegment(oid, b.name)
    ensures a.name == b.name
  {
    var dotted := ObjectPrefix(oid) + ".";
    SplitPrefix(a.name[|dotted|..], "");
    SplitPrefix(b.name[|dotted|..], "");
    assert a.name == dotted + a.name[|dotted|..] && b.name == dotted + b.name[|dotted|..];
  }

  /** Each child's own metadata is listed. */
  ghost predicate ShowsChildren(oid: Oid, children: seq<Dirent>, k: nat, entries: seq<Dirent>)
    requires k <= |children|
  {
    forall i :: 0 <= i < k && EntryOf(oid, children[i]).Some? ==> EntryOf(oid, children[i]).value in entries
  }

  lemma {:induction false} PutShows(oid: Oid, children: seq<Dirent>, k: nat, entries: seq<Dirent>)
    requires HostNames(children) && k < |children| && Ascending(entries)
    requires ShowsChildren(oid, children, k, entries) && EntryOf(oid, children[k]).Some?
    ensures ShowsChildren(oid, children, k + 1, Put(entries, EntryOf(oid, children[k]).value))
  {
    var d := EntryOf(oid, children[k]).value;
    forall i | 0 <= i < k + 1 && EntryOf(oid, children[i]).Some?
      ensures EntryOf(oid, children[i]).value in Put(entries, d)
    {
      var e := EntryOf(oid, children[i]).value;
      PutMembers(entries, d, e);
      if i < k && e.name == d.name { SegmentDecides(oid, children[i], children[k]); }
    }
  }

  /** One of the first `k` children contributes the name. */
  predicate Contributed(oid: Oid, children: seq<Dirent>, k: nat, n: string)
    requires k <= |children|
  {
    exists i :: 0 <= i < k && FirstSegment(oid, children[i].name) == Some(n)
  }

  lemma ContributedNext(oid: Oid, children: seq<Dirent>, k: nat, n: string)
    requires k < |children|
    ensures Contributed(oid, children, k + 1, n) <==>
            Contributed(oid, children, k, n) || FirstSegment(oid, children[k].name) == Some(n)
  {
  }

  /** The entries so far are those of the first `k` children. */
  ghost predicate ListedTo(oid: Oid, children: seq<Dirent>, k: nat, entries: seq<Dirent>)
    requires k <= |children|
  {
    && Ascending(entries)
    && (forall n :: Lists(entries, n) <==> Contributed(oid, children, k, n))
    && (HostNames(children) ==> ShowsChildren(oid, children, k, entries))
  }

  /** A child that contributes nothing, or a name that is listed already. */
  lemma ListedSkip(oid: Oid, children: seq<Dirent>, k: nat, entries: seq<Dirent>)
    requires k < |children| && ListedTo(oid, children, k, entries)
    requires var f := FirstSegment(oid, children[k].name);
             f.None? || (Lists(entries, f.value) && '/' in children[k].name)
    ensures ListedTo(oid, children, k + 1, entries)
  {
    forall n ensures Lists(entries, n) <==> Contributed(oid, children, k + 1, n) {
      ContributedNext(oid, children, k, n);
    }
  }

  lemma {:induction false} ListedPut(oid: Oid, children: seq<Dirent>, k: nat, entries: seq<Dirent>, d: Dirent)
    requires k < |children| && ListedTo(oid, children, k, entries)
             && FirstSegment(oid, children[k].name) == Some(d.name)
    requires HostNames(children) ==> EntryOf(oid, children[k]) == Some(d)
    ensures ListedTo(oid, children, k + 1, Put(entries, d))
  {
    PutAscending(entries, d);
    if HostNames(children) { PutShows(oid, children, k, entries); }
    forall n ensures Lists(Put(entries, d), n) <==> Contributed(oid, children, k + 1, n) {
      PutLists(entries, d, n);
      ContributedNext(oid, children, k, n);
    }
  }

  /** Lists an object's root from the children of the fs root, in whatever order the host returns them. */
  method ReaddirObjectRoot(oid: Oid, children: seq<Dirent>) returns (entries: seq<Dirent>)
    ensures Ascending(entries)
    ensures forall n ::
              Lists(entries, n) <==> exists i :: 0 <= i < |children| && FirstSegment(oid, children[i].name) == Some(n)
    ensures HostNames(children) ==> ShowsChildren(oid, children, |children|, entries)
  {
    var dotted := ObjectPrefix(oid) + ".";
    entries := [];
    for k := 0 to |children|
      invariant ListedTo(oid, children, k, entries)
    {
      var child := children[k];
      if !(dotted <= child.name) {
        ListedSkip(oid, children, k, entries);
        continue;
      }
      var remainder := child.name[|dotted|..];
      var first := Split(remainder)[0];
      if first == "" || (Lists(entries, first) && '/' in remainder) {
        ListedSkip(oid, children, k, entries);
        continue;
      }
      var d := if '/' in remainder then Dirent(first, true, 0) else Dirent(first, child.isDir, child.length);
      ListedPut(oid, children, k, entries, d);
      entries := Put(entries, d);
    }
  }

  /** Some stored path begins with `name`. */
  ghost predicate Begins(stored: set<(Oid, string)>, name: string) {
    exists s :: s in stored && ContentPath(s.0, s.1)[0] == name
  }

  /** The fs root has a child for every stored object path, and no other. */
  ghost predicate Holds(children: seq<Dirent>, stored: set<(Oid, string)>) {
    && (forall s :: s in stored ==> Lists(children, ContentPath(s.0, s.1)[0]))
    && (forall i :: 0 <= i < |children| ==> Begins(stored, children[i].name))
  }

  /** For any set of stored objects, the listing names exactly the first components of that object's entries. */
  lemma ListingIsOwnEntries(oid: Oid, stored: set<(Oid, string)>, children: seq<Dirent>, n: string)
    requires forall s :: s in stored ==> IsNormal(s.1)
    requires Holds(children, stored)
    ensures (exists i :: 0 <= i < |children| && FirstSegment(oid, children[i].name) == Some(n))
            <==> exists s :: s in stored && s.0 == oid && s.1 != "" && Split(s.1)[0] == n
  {
    if i :| 0 <= i < |children| && FirstSegment(oid, children[i].name) == Some(n) {
      var s :| s in stored && ContentPath(s.0, s.1)[0] == children[i].name;
      OnlyOwnNames(oid, s.0, s.1);
    }
    if s :| s in stored && s.0 == oid && s.1 != "" && Split(s.1)[0] == n {
      OnlyOwnNames(oid, oid, s.1);
      var i :| 0 <= i < |children| && children[i].name == ContentPath(s.0, s.1)[0];
    }
  }
}
