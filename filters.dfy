/** The Jinja filters the lab templates use (filter_plugins/netlab_filters.py):
    MAC address reformatting and address/prefix splitting. A filter's input
    is `None` or a string; `None` and the empty string are Python's falsy
    inputs, for which every filter yields "". */
module NetlabFilters {
  import opened Text

  /** A filter argument: Python `None` or a string. */
  type Value = Option<string>

  predicate Falsy(v: Value) {
    v.None? || v.value == []
  }

  // ---------------------------------------------------------------------
  // String helpers with Python's meaning
  // ---------------------------------------------------------------------

  /** `s.replace(c, '')` for a one-character `c`. */
  function Remove(s: string, c: char): (r: string)
    ensures c !in r && |r| <= |s|
    decreases |s|
  {
    if s == [] then []
    else (if s[0] == c then [] else [s[0]]) + Remove(s[1..], c)
  }

  /** Where the first `c` in `s` is. */
  function IndexOf(s: string, c: char): (k: nat)
    requires c in s
    ensures k < |s| && s[k] == c && c !in s[..k]
    decreases |s|
  {
    if s[0] == c then 0
    else
      assert c in s[1..] by {
        var j :| 0 <= j < |s| && s[j] == c;
        assert s[1..][j - 1] == c;
      }
      var k := 1 + IndexOf(s[1..], c);
      assert s[..k] == [s[0]] + s[1..][..k - 1];
      k
  }

  /** `s.split(c)` for a one-character separator: the pieces between
      separators, in order, the empty ones included. */
  function Split(s: string, c: char): (parts: seq<string>)
    ensures |parts| >= 1 && (|parts| >= 2 <==> c in s)
    decreases |s|
  {
    if c !in s then [s]
    else
      var k := IndexOf(s, c);
      [s[..k]] + Split(s[k + 1..], c)
  }

  /** No piece contains the separator. */
  lemma {:induction false} SplitPiecesClean(s: string, c: char)
    ensures forall i :: 0 <= i < |Split(s, c)| ==> c !in Split(s, c)[i]
    decreases |s|
  {
    if c in s {
      var k := IndexOf(s, c);
      var tail := Split(s[k + 1..], c);
      SplitPiecesClean(s[k + 1..], c);
      var parts := Split(s, c);
      assert parts == [s[..k]] + tail;
      forall i | 0 <= i < |parts| ensures c !in parts[i] {
        if i > 0 { assert parts[i] == tail[i - 1]; }
      }
    }
  }

  /** Joining the pieces with the separator restores the string. */
  lemma {:induction false} SplitJoin(s: string, c: char)
    ensures Join([c], Split(s, c)) == s
    decreases |s|
  {
    if c in s {
      var k := IndexOf(s, c);
      var rest := s[k + 1..];
      var tail := Split(rest, c);
      SplitJoin(rest, c);
      var parts := Split(s, c);
      assert parts == [s[..k]] + tail;
      assert parts[1..] == tail;
      assert Join([c], parts) == s[..k] + [c] + Join([c], tail);
      assert s == s[..k] + [c] + rest;
    }
  }

  /** `s.split(c)[0]`: everything before the first separator. */
  function FirstField(s: string, c: char): string {
    Split(s, c)[0]
  }

  /** The first field is the longest separator-free prefix: it is all of
      `s` when `s` has no separator, and is followed by one otherwise. */
  lemma FirstFieldMeaning(s: string, c: char)
    ensures var f := FirstField(s, c);
      |f| <= |s| && f == s[..|f|] && c !in f
      && (c !in s ==> f == s)
      && (c in s ==> |f| < |s| && s[|f|] == c)
  {
  }

  /** Past the first separator, the remaining pieces are the pieces of
      what follows it: `s.split(c)[1]` is the first field of that rest. */
  lemma SplitAfterFirst(s: string, c: char)
    requires c in s
    ensures |FirstField(s, c)| < |s|
    ensures Split(s, c)[1..] == Split(s[|FirstField(s, c)| + 1..], c)
  {
  }

  // ---------------------------------------------------------------------
  // hwaddr
  // ---------------------------------------------------------------------

  /** The raw hex of a MAC: ':', '-' and '.' removed, lower-cased. */
  function Clean(s: string): string {
    Lower(Remove(Remove(Remove(s, ':'), '-'), '.'))
  }

  predicate IsSeparator(c: char) {
    c == ':' || c == '-' || c == '.'
  }

  /** Character by character: separators dropped, everything else kept in
      order and lower-cased. */
  function CleanChars(s: string): string
    decreases |s|
  {
    if s == [] then [] else (if IsSeparator(s[0]) then [] else [LowerChar(s[0])]) + CleanChars(s[1..])
  }

  lemma {:induction false} CleanIsCleanChars(s: string)
    ensures Clean(s) == CleanChars(s)
    decreases |s|
  {
    if s != [] {
      CleanIsCleanChars(s[1..]);
      var head := if IsSeparator(s[0]) then [] else [s[0]];
      var r1 := Remove(s, ':');
      var r2 := Remove(r1, '-');
      var r3 := Remove(r2, '.');
      var t3 := Remove(Remove(Remove(s[1..], ':'), '-'), '.');
      assert r3 == head + t3 by {
        if s[0] == ':' {
          assert r1 == Remove(s[1..], ':');
        } else if s[0] == '-' {
          assert r1 == [s[0]] + Remove(s[1..], ':');
          assert r2 == Remove(Remove(s[1..], ':'), '-');
        } else if s[0] == '.' {
          assert r1 == [s[0]] + Remove(s[1..], ':');
          assert r2 == [s[0]] + Remove(Remove(s[1..], ':'), '-');
          assert r3 == t3;
        } else {
          assert r1 == [s[0]] + Remove(s[1..], ':');
          assert r2 == [s[0]] + Remove(Remove(s[1..], ':'), '-');
          assert r3 == [s[0]] + t3;
        }
      }
      assert Lower(head + t3) == Lower(head) + Lower(t3);
    }
  }

  /** The cleaned MAC has no separator and no upper-case letter, and
      cleaning it again changes nothing. */
  lemma CleanIsClean(s: string)
    ensures var r := Clean(s);
      ':' !in r && '-' !in r && '.' !in r && NoUpper(r) && Clean(r) == r
  {
    var r1 := Remove(s, ':');
    var r2 := Remove(r1, '-');
    var r3 := Remove(r2, '.');
    var r := Clean(s);
    assert ':' !in r2 by { RemoveKeepsOut(r1, '-', ':'); }
    assert ':' !in r3 && '-' !in r3 by { RemoveKeepsOut(r2, '.', ':'); RemoveKeepsOut(r2, '.', '-'); }
    LowerIsLower(r3);
    LowerKeepsOut(r3);
    CleanIsCleanChars(r);
    NoSeparatorsClean(r);
  }

  lemma {:induction false} RemoveKeepsOut(s: string, c: char, d: char)
    requires d !in s
    ensures d !in Remove(s, c)
    decreases |s|
  {
    if s != [] { RemoveKeepsOut(s[1..], c, d); }
  }

  lemma LowerKeepsOut(s: string)
    requires ':' !in s && '-' !in s && '.' !in s
    ensures var r := Lower(s); ':' !in r && '-' !in r && '.' !in r
  {
    var r := Lower(s);
    forall i | 0 <= i < |r| ensures !IsSeparator(r[i]) {
      assert r[i] == LowerChar(s[i]);
    }
  }

  lemma {:induction false} NoSeparatorsClean(r: string)
    requires ':' !in r && '-' !in r && '.' !in r && NoUpper(r)
    ensures CleanChars(r) == r
    decreases |r|
  {
    if r != [] {
      NoSeparatorsClean(r[1..]);
      assert LowerChar(r[0]) == r[0];
    }
  }

  /** `[s[i:i+width] for i in range(0, width*count, width)]`, clamped. */
  function Chunks(s: string, width: nat, count: nat): (parts: seq<string>)
    ensures |parts| == count
  {
    seq(count, i requires 0 <= i < count => Slice(s, i * width, i * width + width))
  }

  /** `hwaddr_filter(value, query)`. */
  function Hwaddr(value: Value, query: Value): string {
    if Falsy(value) then ""
    else
      var clean := Clean(value.value);
      if query == Some("linux") || Falsy(query) then Join(":", Chunks(clean, 2, 6))
      else if query == Some("cisco") then Join(".", Chunks(clean, 4, 3))
      else clean
  }

  /** The pieces run together. */
  function Concat(parts: seq<string>): string
    decreases |parts|
  {
    if parts == [] then [] else parts[0] + Concat(parts[1..])
  }

  /** Removing the separator from a join leaves the pieces run together,
      when no piece contains the separator. */
  lemma {:induction false} RemoveJoin(c: char, parts: seq<string>)
    requires forall i :: 0 <= i < |parts| ==> c !in parts[i]
    ensures Remove(Join([c], parts), c) == Concat(parts)
    decreases |parts|
  {
    if |parts| == 1 {
      NoSeparatorRemove(parts[0], c);
      assert Concat(parts[1..]) == [];
    } else if |parts| > 1 {
      RemoveJoin(c, parts[1..]);
      NoSeparatorRemove(parts[0], c);
      RemoveAppend(parts[0] + [c], Join([c], parts[1..]), c);
      RemoveAppend(parts[0], [c], c);
      assert Remove([c], c) == [];
    }
  }

  lemma {:induction false} NoSeparatorRemove(s: string, c: char)
    requires c !in s
    ensures Remove(s, c) == s
    decreases |s|
  {
    if s != [] { NoSeparatorRemove(s[1..], c); }
  }

  lemma {:induction false} RemoveAppend(a: string, b: string, c: char)
    ensures Remove(a + b, c) == Remove(a, c) + Remove(b, c)
    decreases |a|
  {
    if a == [] {
      assert a + b == b;
    } else {
      var head := if a[0] == c then [] else [a[0]];
      assert (a + b)[0] == a[0];
      assert (a + b)[1..] == a[1..] + b;
      RemoveAppend(a[1..], b, c);
      calc {
        Remove(a + b, c);
        head + Remove(a[1..] + b, c);
        head + (Remove(a[1..], c) + Remove(b, c));
        (head + Remove(a[1..], c)) + Remove(b, c);
        Remove(a, c) + Remove(b, c);
      }
    }
  }

  /** The first `count` chunks, and one more. */
  lemma ChunksSnoc(s: string, width: nat, count: nat)
    ensures Chunks(s, width, count + 1) == Chunks(s, width, count) + [Slice(s, count * width, count * width + width)]
  {
    var longer := Chunks(s, width, count + 1);
    var shorter := Chunks(s, width, count);
    forall i | 0 <= i < count ensures longer[i] == shorter[i] {
    }
  }

  /** Consecutive clamped chunks from the start run together to the
      clamped prefix they cover. */
  lemma {:induction false} ChunksConcat(s: string, width: nat, count: nat)
    ensures Concat(Chunks(s, width, count)) == Slice(s, 0, count * width)
    decreases count
  {
    if count > 0 {
      var n := count - 1;
      var k := n * width;
      assert k + width == count * width;
      var last := Slice(s, k, k + width);
      ChunksConcat(s, width, n);
      ChunksSnoc(s, width, n);
      ConcatSnoc(Chunks(s, width, n), last);
      SliceAdjacent(s, k, width);
      calc {
        Concat(Chunks(s, width, count));
        Concat(Chunks(s, width, n) + [last]);
        Concat(Chunks(s, width, n)) + last;
        Slice(s, 0, k) + last;
        Slice(s, 0, k + width);
      }
    }
  }

  lemma {:induction false} ConcatSnoc(parts: seq<string>, last: string)
    ensures Concat(parts + [last]) == Concat(parts) + last
    decreases |parts|
  {
    if parts == [] {
      assert Concat([last][1..]) == [];
    } else {
      assert (parts + [last])[1..] == parts[1..] + [last];
      ConcatSnoc(parts[1..], last);
    }
  }

  lemma SliceAdjacent(s: string, k: nat, width: nat)
    ensures Slice(s, 0, k) + Slice(s, k, k + width) == Slice(s, 0, k + width)
  {
  }

  /** Chunks of a separator-free string joined by the separator: removing
      the separator gives back the covered prefix, and when the string is
      long enough every chunk is full. */
  lemma JoinedChunks(s: string, c: char, width: nat, count: nat)
    requires c !in s && count >= 1
    ensures Remove(Join([c], Chunks(s, width, count)), c) == Slice(s, 0, count * width)
    ensures |s| >= count * width ==> |Join([c], Chunks(s, width, count))| == count * width + count - 1
  {
    var parts := Chunks(s, width, count);
    forall i | 0 <= i < count ensures c !in parts[i] {
      SliceOmits(s, i * width, i * width + width, c);
    }
    RemoveJoin(c, parts);
    ChunksConcat(s, width, count);
    if |s| >= count * width {
      FullChunks(s, width, count);
      JoinLength(c, parts, width);
    }
  }

  /** When `s` covers all the chunks, each is exactly `width` long. */
  lemma FullChunks(s: string, width: nat, count: nat)
    requires |s| >= count * width
    ensures forall i :: 0 <= i < count ==> |Chunks(s, width, count)[i]| == width
  {
    forall i | 0 <= i < count ensures |Chunks(s, width, count)[i]| == width {
      var lo := i * width;
      MulMono(i + 1, count, width);
      assert (i + 1) * width == lo + width;
      assert Chunks(s, width, count)[i] == Slice(s, lo, lo + width);
    }
  }

  lemma MulMono(a: nat, b: nat, w: nat)
    requires a <= b
    ensures a * w <= b * w
  {
  }

  /** With no query or 'linux', six two-character groups joined by ':':
      without the colons it is the first 12 characters of the cleaned MAC,
      and a MAC of 12 or more hex digits gives the 17-character form. */
  lemma HwaddrLinux(value: Value, query: Value)
    requires !Falsy(value) && (query == Some("linux") || Falsy(query))
    ensures var clean := Clean(value.value);
      Remove(Hwaddr(value, query), ':') == Slice(clean, 0, 12)
      && (|clean| >= 12 ==> |Hwaddr(value, query)| == 17)
  {
    CleanIsClean(value.value);
    JoinedChunks(Clean(value.value), ':', 2, 6);
  }

  /** With 'cisco', three four-character groups joined by '.': without the
      dots it is the first 12 characters of the cleaned MAC, and a MAC of
      12 or more hex digits gives the 14-character form. */
  lemma HwaddrCisco(value: Value)
    requires !Falsy(value)
    ensures var clean := Clean(value.value);
      Remove(Hwaddr(value, Some("cisco")), '.') == Slice(clean, 0, 12)
      && (|clean| >= 12 ==> |Hwaddr(value, Some("cisco"))| == 14)
  {
    CleanIsClean(value.value);
    JoinedChunks(Clean(value.value), '.', 4, 3);
  }

  /** Any other query returns the cleaned MAC itself. */
  lemma HwaddrOther(value: Value, query: string)
    requires !Falsy(value) && query != [] && query != "linux" && query != "cisco"
    ensures Hwaddr(value, Some(query)) == Clean(value.value)
    ensures NoUpper(Hwaddr(value, Some(query)))
  {
    CleanIsClean(value.value);
  }

  lemma SliceOmits(s: string, lo: nat, hi: nat, c: char)
    requires c !in s
    ensures c !in Slice(s, lo, hi)
  {
  }

  lemma {:induction false} JoinLength(c: char, parts: seq<string>, width: nat)
    requires |parts| >= 1 && forall i :: 0 <= i < |parts| ==> |parts[i]| == width
    ensures |Join([c], parts)| == |parts| * width + |parts| - 1
    decreases |parts|
  {
    if |parts| > 1 {
      JoinLength(c, parts[1..], width);
    }
  }

  // ---------------------------------------------------------------------
  // Address filters
  // ---------------------------------------------------------------------

  /** `ipaddr_filter(value, query)`. */
  function Ipaddr(value: Value, query: Value): string {
    if Falsy(value) then ""
    else if query == Some("address") then FirstField(value.value, '/')
    else if query == Some("prefix") then
      if '/' in value.value then Split(value.value, '/')[1] else ""
    else value.value
  }

  /** `ipv4_filter(value)`. */
  function Ipv4(value: Value): string {
    if Falsy(value) then "" else FirstField(value.value, '/')
  }

  /** `ipv6_filter(value)`. */
  function Ipv6(value: Value): string {
    if Falsy(value) then "" else Lower(FirstField(value.value, '/'))
  }

  /** `macaddr_filter(value)`. */
  function Macaddr(value: Value): string {
    if Falsy(value) then "" else Lower(value.value)
  }

  /** 'address', `ipv4` and `ipv6` give the text before the first '/' (all
      of it when there is none); `ipv6` lower-cases it. */
  lemma AddressFilters(s: string)
    requires s != []
    ensures var a := Ipv4(Some(s));
      a == Ipaddr(Some(s), Some("address")) && Ipv6(Some(s)) == Lower(a)
      && a == s[..|a|] && '/' !in a
      && ('/' !in s ==> a == s)
      && ('/' in s ==> |a| < |s| && s[|a|] == '/')
  {
    FirstFieldMeaning(s, '/');
  }

  /** 'prefix' gives the text between the first and the second '/' (to the
      end when there is no second), and "" when there is no '/'. */
  lemma PrefixFilter(s: string)
    requires s != []
    ensures '/' !in s ==> Ipaddr(Some(s), Some("prefix")) == ""
    ensures '/' in s ==>
              var rest := s[|Ipv4(Some(s))| + 1..];
              Ipaddr(Some(s), Some("prefix")) == FirstField(rest, '/')
              && s == Ipv4(Some(s)) + "/" + rest
  {
    if '/' in s {
      FirstFieldMeaning(s, '/');
      SplitAfterFirst(s, '/');
      var f := FirstField(s, '/');
      assert s == f + "/" + s[|f| + 1..];
    }
  }

  /** Any other query, and no query, returns the value itself. */
  lemma IpaddrOther(s: string, query: Value)
    requires s != [] && query != Some("address") && query != Some("prefix")
    ensures Ipaddr(Some(s), query) == s
  {
  }

  /** `macaddr` lower-cases and changes nothing else. */
  lemma MacaddrLower(s: string)
    requires s != []
    ensures var m := Macaddr(Some(s));
      |m| == |s| && NoUpper(m) && m == Lower(s)
      && forall i :: 0 <= i < |s| ==> m[i] == LowerChar(s[i])
  {
    LowerIsLower(s);
  }

  /** Every filter gives "" for `None` and for "". */
  lemma FalsyGivesEmpty(value: Value, query: Value)
    requires Falsy(value)
    ensures Hwaddr(value, query) == "" && Ipaddr(value, query) == ""
    ensures Ipv4(value) == "" && Ipv6(value) == "" && Macaddr(value) == ""
  {
  }

  /** Splitting at a known first separator. */
  lemma SplitAt(s: string, c: char, k: nat)
    requires k < |s| && s[k] == c && c !in s[..k]
    ensures Split(s, c) == [s[..k]] + Split(s[k + 1..], c)
  {
    assert s[k] == c;
    var j := IndexOf(s, c);
    assert Split(s, c) == [s[..j]] + Split(s[j + 1..], c);
    FirstUnique(s, c, j, k);
  }

  /** There is only one first occurrence. */
  lemma FirstUnique(s: string, c: char, j: nat, k: nat)
    requires j < |s| && s[j] == c && c !in s[..j]
    requires k < |s| && s[k] == c && c !in s[..k]
    ensures j == k
  {
  }

  /** On an address in CIDR notation: 'address' and `ipv4` give the
      address, 'prefix' the length. */
  lemma CidrFilters(address: string, length: string)
    requires '/' !in address && '/' !in length
    ensures var cidr := Some(address + "/" + length);
      Ipaddr(cidr, Some("address")) == address && Ipv4(cidr) == address
      && Ipaddr(cidr, Some("prefix")) == length
  {
    var s := address + "/" + length;
    assert s[..|address|] == address && s[|address| + 1..] == length && s[|address|] == '/';
    SplitAt(s, '/', |address|);
  }

  // ---------------------------------------------------------------------
  // The filter table
  // ---------------------------------------------------------------------

  datatype Filter = Ipv4Filter | Ipv6Filter | MacaddrFilter | IpaddrFilter | HwaddrFilter

  /** `FilterModule.filters()`: the names the templates use. */
  function Filters(): (table: map<string, Filter>)
    ensures table.Keys == {"ipv4", "ipv6", "macaddr", "ipaddr", "hwaddr"}
  {
    map["ipv4" := Ipv4Filter, "ipv6" := Ipv6Filter, "macaddr" := MacaddrFilter,
        "ipaddr" := IpaddrFilter, "hwaddr" := HwaddrFilter]
  }

  /** A filter applied from a template: `ipv4`, `ipv6` and `macaddr` take
      no argument, and passing one is a TypeError (`None` here). */
  function Apply(f: Filter, value: Value, arg: Option<string>): Option<string> {
    match f
    case Ipv4Filter => if arg.None? then Some(Ipv4(value)) else None
    case Ipv6Filter => if arg.None? then Some(Ipv6(value)) else None
    case MacaddrFilter => if arg.None? then Some(Macaddr(value)) else None
    case IpaddrFilter => Some(Ipaddr(value, arg))
    case HwaddrFilter => Some(Hwaddr(value, arg))
  }

  /** Each name reaches its own filter, and no two names share one. */
  lemma FiltersDistinct()
    ensures forall n1, n2 :: n1 in Filters() && n2 in Filters() && Filters()[n1] == Filters()[n2] ==> n1 == n2
    ensures Filters()["hwaddr"] == HwaddrFilter && Filters()["ipaddr"] == IpaddrFilter
  {
  }
}
