/**
 * The part of Python's `json.dumps(obj, sort_keys=True)` that `state_key`
 * relies on, for a dictionary whose keys and values are strings: default
 * separators `", "` and `": "`, `ensure_ascii` escaping, keys sorted by code
 * point. The main results are that the text does not depend on the order in
 * which the dictionary was built, and that different dictionaries give
 * different texts.
 */
module Json {
  import opened Text
  import opened OrderedDict

  /** A lower-case hexadecimal digit, as `format(n, "04x")` writes it. */
  function HexDigit(d: int): (c: char)
    requires 0 <= d < 16
    ensures '0' <= c <= '9' || 'a' <= c <= 'f'
  {
    if d < 10 then ('0' as int + d) as char else ('a' as int + d - 10) as char
  }

  /** `"\\u{0:04x}".format(n)`: a backslash, `u` and four hex digits. */
  function UEscape(n: int): (r: string)
    requires 0 <= n < 0x10000
    ensures |r| == 6 && r[0] == '\\' && r[1] == 'u'
  {
    ['\\', 'u', HexDigit(n / 16 / 16 / 16), HexDigit(n / 16 / 16 % 16), HexDigit(n / 16 % 16), HexDigit(n % 16)]
  }

  /** Printable ASCII, which `ensure_ascii` writes as itself unless it is `"` or `\`. */
  predicate Printable(c: char) {
    ' ' <= c <= '~'
  }

  /** High and low surrogates of a code point above the Basic Multilingual Plane. */
  function HighSurrogate(n: int): int
    requires 0x10000 <= n < 0x110000
  {
    0xD800 + (n - 0x10000) / 0x400
  }

  function LowSurrogate(n: int): int
    requires 0x10000 <= n < 0x110000
  {
    0xDC00 + (n - 0x10000) % 0x400
  }

  /** How `ensure_ascii` writes one character. */
  function EscapeChar(c: char): (r: string)
    ensures 1 <= |r|
    ensures r[0] != '"'
    ensures forall i :: 0 <= i < |r| ==> Printable(r[i])
  {
    if c == '"' then "\\\""
    else if c == '\\' then "\\\\"
    else if c == '\n' then "\\n"
    else if c == '\r' then "\\r"
    else if c == '\t' then "\\t"
    else if c == '\U{8}' then "\\b"
    else if c == '\U{C}' then "\\f"
    else if Printable(c) then [c]
    else if c as int < 0x10000 then UEscape(c as int)
    else UEscape(HighSurrogate(c as int)) + UEscape(LowSurrogate(c as int))
  }

  /** The body of a JSON string literal. */
  function Escape(s: string): (r: string)
    ensures forall i :: 0 <= i < |r| ==> Printable(r[i])
  {
    if s == [] then [] else EscapeChar(s[0]) + Escape(s[1..])
  }

  /** A JSON string literal: printable ASCII between two quotes. */
  function Quote(s: string): (r: string)
    ensures |r| >= 2 && r[0] == '"' && r[|r| - 1] == '"'
    ensures forall i :: 0 <= i < |r| ==> Printable(r[i])
  {
    "\"" + Escape(s) + "\""
  }

  lemma HexDigitInjective(a: int, b: int)
    requires 0 <= a < 16 && 0 <= b < 16 && HexDigit(a) == HexDigit(b)
    ensures a == b
  {
  }

  lemma UEscapeInjective(m: int, n: int)
    requires 0 <= m < 0x10000 && 0 <= n < 0x10000 && UEscape(m) == UEscape(n)
    ensures m == n
  {
    HexDigitInjective(m / 16 / 16 / 16, n / 16 / 16 / 16);
    HexDigitInjective(m / 16 / 16 % 16, n / 16 / 16 % 16);
    HexDigitInjective(m / 16 % 16, n / 16 % 16);
    HexDigitInjective(m % 16, n % 16);
    SplitDigit(m / 16 / 16, n / 16 / 16);
    SplitDigit(m / 16, n / 16);
    SplitDigit(m, n);
  }

  /** A number is determined by its last hex digit and the number of whole sixteens. */
  lemma SplitDigit(m: int, n: int)
    requires 0 <= m && 0 <= n && m / 16 == n / 16 && m % 16 == n % 16
    ensures m == n
  {
    assert m == 16 * (m / 16) + m % 16;
    assert n == 16 * (n / 16) + n % 16;
  }

  lemma DropPrefix(a: string, b: string)
    ensures (a + b)[|a|..] == b
  {
  }

  lemma Associative(a: string, b: string, c: string, d: string)
    ensures a + b + c + d == a + (b + c + d)
  {
  }

  lemma Regroup(a: string, b: string, c: string)
    ensures a + b + c == a + (b + c)
  {
  }

  /** The character a two-character escape `\e` stands for. */
  function Unescaped(e: char): char {
    if e == 'n' then '\n'
    else if e == 'r' then '\r'
    else if e == 't' then '\t'
    else if e == 'b' then '\U{8}'
    else if e == 'f' then '\U{C}'
    else e
  }

  /** Every escape is the character itself, a two-character escape, or one or two `\uXXXX`. */
  lemma EscapeCharCases(c: char)
    ensures var a := EscapeChar(c);
      (a[0] != '\\' && a == [c]) ||
      (a[0] == '\\' && |a| == 2 && a[1] != 'u' && Unescaped(a[1]) == c) ||
      (c as int < 0x10000 && a == UEscape(c as int)) ||
      (0x10000 <= c as int && a == UEscape(HighSurrogate(c as int)) + UEscape(LowSurrogate(c as int)))
  {
  }

  /** The characters `ensure_ascii` writes as `\u` escapes. */
  predicate PastAscii(c: char) {
    !Printable(c) && c !in "\n\r\t\U{8}\U{C}"
  }

  /** The code unit a `\u` escape writes first: the character, or its high surrogate. */
  function FirstUnit(c: char): int
    requires PastAscii(c)
  {
    if c as int < 0x10000 then c as int else HighSurrogate(c as int)
  }

  /** What a `\u` escape consists of. */
  lemma UEscapeHead(c: char)
    requires PastAscii(c)
    ensures 0 <= FirstUnit(c) < 0x10000
    ensures |EscapeChar(c)| >= 6 && EscapeChar(c)[..6] == UEscape(FirstUnit(c))
    ensures c as int < 0x10000 ==> |EscapeChar(c)| == 6
    ensures 0x10000 <= c as int ==> EscapeChar(c)[6..] == UEscape(LowSurrogate(c as int))
  {
    if 0x10000 <= c as int {
      var h, l := UEscape(HighSurrogate(c as int)), UEscape(LowSurrogate(c as int));
      assert (h + l)[..6] == h && (h + l)[6..] == l;
    }
  }

  /** A code point above the Basic Multilingual Plane is determined by its two surrogates. */
  lemma SurrogatesDetermine(m: int, n: int)
    requires 0x10000 <= m < 0x110000 && 0x10000 <= n < 0x110000
    requires HighSurrogate(m) == HighSurrogate(n) && LowSurrogate(m) == LowSurrogate(n)
    ensures m == n
  {
    assert m - 0x10000 == 0x400 * ((m - 0x10000) / 0x400) + (m - 0x10000) % 0x400;
    assert n - 0x10000 == 0x400 * ((n - 0x10000) / 0x400) + (n - 0x10000) % 0x400;
  }

  /** Two `\u` escapes at the head of the same text come from the same character. */
  lemma UEscapesAgree(c: char, d: char, x: string, y: string)
    requires PastAscii(c) && PastAscii(d)
    requires EscapeChar(c) + x == EscapeChar(d) + y
    ensures c == d
  {
    var a, b := EscapeChar(c), EscapeChar(d);
    UEscapeHead(c);
    UEscapeHead(d);
    assert a[..6] == (a + x)[..6] == (b + y)[..6] == b[..6];
    UEscapeInjective(FirstUnit(c), FirstUnit(d));
    if 0x10000 <= c as int && 0x10000 <= d as int {
      assert a[6..] == (a + x)[6..12] == (b + y)[6..12] == b[6..];
      UEscapeInjective(LowSurrogate(c as int), LowSurrogate(d as int));
      SurrogatesDetermine(c as int, d as int);
    }
  }

  /** The escapes of single characters form a prefix-free code. */
  lemma EscapeCharPrefixFree(c: char, d: char, x: string, y: string)
    requires EscapeChar(c) + x == EscapeChar(d) + y
    ensures c == d && x == y
  {
    var a, b := EscapeChar(c), EscapeChar(d);
    EscapeCharCases(c);
    EscapeCharCases(d);
    assert a[0] == (a + x)[0] == (b + y)[0] == b[0];
    if a[0] == '\\' {
      assert a[1] == (a + x)[1] == (b + y)[1] == b[1];
      if a[1] == 'u' {
        UEscapesAgree(c, d, x, y);
      }
    }
    assert x == (a + x)[|a|..] == (b + y)[|b|..] == y;
  }

  /**
   * The closing quote of a JSON string literal is the first unescaped `"`,
   * so an escaped body followed by `"` is read back unambiguously.
   */
  lemma {:induction false} EscapeUnique(s: string, t: string, x: string, y: string)
    requires Escape(s) + "\"" + x == Escape(t) + "\"" + y
    ensures s == t && x == y
    decreases |s|
  {
    if s == [] {
      assert (Escape(s) + "\"" + x)[0] == '"';
      assert t == [];
      assert Escape(s) == [] && Escape(t) == [];
      assert [] + "\"" + x == "\"" + x && [] + "\"" + y == "\"" + y;
      assert x == ("\"" + x)[1..] == ("\"" + y)[1..] == y;
    } else {
      assert Escape(s) == EscapeChar(s[0]) + Escape(s[1..]);
      assert (Escape(s) + "\"" + x)[0] == EscapeChar(s[0])[0];
      assert t != [];
      assert Escape(t) == EscapeChar(t[0]) + Escape(t[1..]);
      Associative(EscapeChar(s[0]), Escape(s[1..]), "\"", x);
      Associative(EscapeChar(t[0]), Escape(t[1..]), "\"", y);
      EscapeCharPrefixFree(s[0], t[0], Escape(s[1..]) + "\"" + x, Escape(t[1..]) + "\"" + y);
      EscapeUnique(s[1..], t[1..], x, y);
      assert s == [s[0]] + s[1..] && t == [t[0]] + t[1..];
    }
  }

  /** A string literal followed by anything is read back unambiguously. */
  lemma QuoteUnique(s: string, t: string, x: string, y: string)
    requires Quote(s) + x == Quote(t) + y
    ensures s == t && x == y
  {
    assert Escape(s) + "\"" + x == (Quote(s) + x)[1..] == (Quote(t) + y)[1..] == Escape(t) + "\"" + y;
    EscapeUnique(s, t, x, y);
  }

  /** `"key": "value"` */
  function Member(p: (string, string)): (r: string)
    ensures |r| > 0 && r[0] == '"'
  {
    Quote(p.0) + ": " + Quote(p.1)
  }

  /** The members separated by `", "`. */
  function Members(ps: seq<(string, string)>): (r: string)
    ensures r == [] <==> ps == []
    ensures ps != [] ==> r[0] == '"'
    decreases |ps|, 0
  {
    if ps == [] then "" else Member(ps[0]) + MoreMembers(ps[1..])
  }

  /** The members after the first, each preceded by `", "`. */
  function MoreMembers(ps: seq<(string, string)>): (r: string)
    ensures r == [] <==> ps == []
    ensures ps != [] ==> r[0] == ','
    decreases |ps|, 1
  {
    if ps == [] then "" else ", " + Members(ps)
  }

  /** `json.dumps` of a dictionary whose pairs are already in output order. */
  function DumpObject(ps: seq<(string, string)>): string {
    "{" + Members(ps) + "}"
  }

  lemma MemberPrefixFree(p: (string, string), q: (string, string), u: string, w: string)
    requires Member(p) + u == Member(q) + w
    ensures p == q && u == w
  {
    Associative(Quote(p.0), ": ", Quote(p.1), u);
    Associative(Quote(q.0), ": ", Quote(q.1), w);
    Regroup(": ", Quote(p.1), u);
    Regroup(": ", Quote(q.1), w);
    QuoteUnique(p.0, q.0, ": " + (Quote(p.1) + u), ": " + (Quote(q.1) + w));
    DropPrefix(": ", Quote(p.1) + u);
    DropPrefix(": ", Quote(q.1) + w);
    QuoteUnique(p.1, q.1, u, w);
  }

  /** Splitting off the first member of a non-empty list. */
  lemma MembersHead(ps: seq<(string, string)>)
    requires ps != []
    ensures Members(ps) + "}" == Member(ps[0]) + (MoreMembers(ps[1..]) + "}")
  {
  }

  /** Dropping the `", "` in front of the remaining members. */
  lemma CommaDrop(ps: seq<(string, string)>, qs: seq<(string, string)>)
    requires ps != [] && qs != []
    requires MoreMembers(ps) + "}" == MoreMembers(qs) + "}"
    ensures Members(ps) + "}" == Members(qs) + "}"
  {
    Regroup(", ", Members(ps), "}");
    Regroup(", ", Members(qs), "}");
    DropPrefix(", ", Members(ps) + "}");
    DropPrefix(", ", Members(qs) + "}");
  }

  lemma {:induction false} MembersUnique(ps: seq<(string, string)>, qs: seq<(string, string)>)
    requires Members(ps) + "}" == Members(qs) + "}"
    ensures ps == qs
    decreases |ps|
  {
    assert (Members(ps) + "}")[0] == (Members(qs) + "}")[0];
    if ps != [] && qs != [] {
      var restP, restQ := MoreMembers(ps[1..]) + "}", MoreMembers(qs[1..]) + "}";
      MembersHead(ps);
      MembersHead(qs);
      MemberPrefixFree(ps[0], qs[0], restP, restQ);
      assert restP[0] == restQ[0];
      if ps[1..] != [] && qs[1..] != [] {
        CommaDrop(ps[1..], qs[1..]);
        MembersUnique(ps[1..], qs[1..]);
      }
      assert ps == [ps[0]] + ps[1..] && qs == [qs[0]] + qs[1..];
    }
  }

  /** Different member lists are written as different texts. */
  lemma DumpObjectInjective(ps: seq<(string, string)>, qs: seq<(string, string)>)
    requires DumpObject(ps) == DumpObject(qs)
    ensures ps == qs
  {
    assert DumpObject(ps) == "{" + (Members(ps) + "}");
    assert DumpObject(qs) == "{" + (Members(qs) + "}");
    DropPrefix("{", Members(ps) + "}");
    DropPrefix("{", Members(qs) + "}");
    MembersUnique(ps, qs);
  }

  /** Pairs in strictly increasing key order (Python's `sorted` over keys that are all different). */
  predicate StrictlySorted(ps: seq<(string, string)>) {
    forall i, j :: 0 <= i < j < |ps| ==> Less(ps[i].0, ps[j].0)
  }

  /** Insert `p` before the first pair whose key is not smaller. */
  function Insert(p: (string, string), ps: seq<(string, string)>): (r: seq<(string, string)>)
    ensures multiset(r) == multiset(ps) + multiset{p}
    ensures |r| == |ps| + 1
  {
    if ps == [] then [p]
    else
      assert ps == [ps[0]] + ps[1..];
      if Less(ps[0].0, p.0) then [ps[0]] + Insert(p, ps[1..]) else [p] + ps
  }

  /** `sorted(d.items())`, the order `sort_keys=True` writes the members in. */
  function SortByKey(d: seq<(string, string)>): (r: seq<(string, string)>)
    ensures multiset(r) == multiset(d)
  {
    if d == [] then [] else
      assert d == [d[0]] + d[1..];
      Insert(d[0], SortByKey(d[1..]))
  }

  /**
   * `json.dumps(d, sort_keys=True)` for a dictionary from strings to strings:
   * an object in braces, written in printable ASCII only.
   */
  function DumpsSorted(d: seq<(string, string)>): (r: string)
    ensures |r| >= 2 && r[0] == '{' && r[|r| - 1] == '}'
    ensures forall i :: 0 <= i < |r| ==> Printable(r[i])
  {
    MembersAscii(SortByKey(d));
    DumpObject(SortByKey(d))
  }

  /** `ensure_ascii` keeps the member list in printable ASCII. */
  lemma {:induction false} MembersAscii(ps: seq<(string, string)>)
    ensures forall i :: 0 <= i < |Members(ps)| ==> Printable(Members(ps)[i])
    decreases |ps|
  {
    if ps != [] {
      MembersAscii(ps[1..]);
      var m, rest := Member(ps[0]), MoreMembers(ps[1..]);
      assert Members(ps) == m + rest;
      assert forall i :: 0 <= i < |m| ==> Printable(m[i]) by {
        assert m == Quote(ps[0].0) + ": " + Quote(ps[0].1);
      }
      assert forall i :: 0 <= i < |rest| ==> Printable(rest[i]) by {
        if ps[1..] != [] {
          assert rest == ", " + Members(ps[1..]);
        }
      }
    }
  }

  lemma {:induction false} InsertSorted(p: (string, string), ps: seq<(string, string)>)
    requires StrictlySorted(ps)
    requires forall q :: q in ps ==> q.0 != p.0
    ensures StrictlySorted(Insert(p, ps))
    decreases |ps|
  {
    if ps != [] && Less(ps[0].0, p.0) {
      InsertSorted(p, ps[1..]);
      var r := Insert(p, ps);
      forall i, j | 0 <= i < j < |r| ensures Less(r[i].0, r[j].0) {
        if i == 0 {
          assert r[j] in multiset(ps[1..]) + multiset{p};
          if r[j] != p {
            assert r[j] in ps[1..];
            var k :| 0 <= k < |ps[1..]| && ps[1..][k] == r[j];
            assert ps[k + 1] == r[j];
          }
        }
      }
    } else if ps != [] {
      var r := Insert(p, ps);
      forall i, j | 0 <= i < j < |r| ensures Less(r[i].0, r[j].0) {
        if i == 0 {
          LessTotal(p.0, ps[0].0);
          if j > 1 { LessTransitive(p.0, ps[0].0, ps[j - 1].0); }
        }
      }
    }
  }

  /** With keys all different, sorting gives the strictly increasing arrangement of the same pairs. */
  lemma {:induction false} SortByKeySorted(d: seq<(string, string)>)
    requires UniqueKeys(d)
    ensures StrictlySorted(SortByKey(d))
    decreases |d|
  {
    if d != [] {
      assert UniqueKeys(d[1..]) by {
        forall i, j | 0 <= i < j < |d| - 1 ensures Keys(d[1..])[i] != Keys(d[1..])[j] {
          assert Keys(d)[i + 1] != Keys(d)[j + 1];
        }
      }
      SortByKeySorted(d[1..]);
      forall q | q in SortByKey(d[1..]) ensures q.0 != d[0].0 {
        assert q in multiset(d[1..]);
        var k :| 0 <= k < |d[1..]| && d[1..][k] == q;
        assert Keys(d)[0] != Keys(d)[k + 1];
      }
      InsertSorted(d[0], SortByKey(d[1..]));
    }
  }

  /** Two strictly sorted arrangements of the same pairs are the same sequence. */
  lemma {:induction false} SortedArrangementUnique(ps: seq<(string, string)>, qs: seq<(string, string)>)
    requires StrictlySorted(ps) && StrictlySorted(qs)
    requires forall x :: x in ps <==> x in qs
    ensures ps == qs
    decreases |ps|
  {
    assert ps != [] ==> ps[0] in qs;
    assert qs != [] ==> qs[0] in ps;
    if ps != [] && qs != [] {
      var i :| 0 <= i < |qs| && qs[i] == ps[0];
      var j :| 0 <= j < |ps| && ps[j] == qs[0];
      if i != 0 && j != 0 {
        LessAsymmetric(qs[0].0, qs[i].0);
      } else if i != 0 {
        LessIrreflexive(ps[0].0);
      } else if j != 0 {
        LessIrreflexive(qs[0].0);
      }
      assert ps[0] == qs[0];
      forall x ensures x in ps[1..] <==> x in qs[1..] {
        if x in ps[1..] {
          var k :| 0 <= k < |ps| - 1 && ps[k + 1] == x;
          LessIrreflexive(ps[0].0);
          assert x != ps[0];
          assert x in qs;
          var m :| 0 <= m < |qs| && qs[m] == x;
          assert m != 0;
          assert qs[1..][m - 1] == x;
        }
        if x in qs[1..] {
          var k :| 0 <= k < |qs| - 1 && qs[k + 1] == x;
          LessIrreflexive(qs[0].0);
          assert x != qs[0];
          assert x in ps;
          var m :| 0 <= m < |ps| && ps[m] == x;
          assert m != 0;
          assert ps[1..][m - 1] == x;
        }
      }
      SortedArrangementUnique(ps[1..], qs[1..]);
      assert ps == [ps[0]] + ps[1..] && qs == [qs[0]] + qs[1..];
    }
  }

  /**
   * `sort_keys=True` makes the text independent of insertion order: two
   * dictionaries that are equal as maps are written identically.
   */
  lemma DumpsSortedOrderIndependent(d: seq<(string, string)>, e: seq<(string, string)>)
    requires UniqueKeys(d) && UniqueKeys(e)
    requires AsMap(d) == AsMap(e)
    ensures DumpsSorted(d) == DumpsSorted(e)
  {
    SortByKeySorted(d);
    SortByKeySorted(e);
    forall x ensures x in SortByKey(d) <==> x in SortByKey(e) {
      assert x in SortByKey(d) <==> x in multiset(d);
      assert x in SortByKey(e) <==> x in multiset(e);
      AsMapMembers(d, x);
      AsMapMembers(e, x);
    }
    SortedArrangementUnique(SortByKey(d), SortByKey(e));
  }

  /** Dictionaries that differ as maps are written as different texts. */
  lemma DumpsSortedInjective(d: seq<(string, string)>, e: seq<(string, string)>)
    requires UniqueKeys(d) && UniqueKeys(e)
    requires DumpsSorted(d) == DumpsSorted(e)
    ensures AsMap(d) == AsMap(e)
  {
    DumpObjectInjective(SortByKey(d), SortByKey(e));
    forall k | k in AsMap(d) ensures k in AsMap(e) && AsMap(e)[k] == AsMap(d)[k] {
      var x := (k, AsMap(d)[k]);
      AsMapMembers(d, x);
      assert x in multiset(SortByKey(d));
      assert x in multiset(e);
      AsMapMembers(e, x);
    }
    forall k | k in AsMap(e) ensures k in AsMap(d) {
      var x := (k, AsMap(e)[k]);
      AsMapMembers(e, x);
      assert x in multiset(SortByKey(e));
      assert x in multiset(d);
      AsMapMembers(d, x);
    }
  }
}
