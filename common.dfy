/** Helpers shared by every pipeline stage: an Option type and the parts of
    Python's `str`, `int()`, `sorted()` and `os.path` behaviour that the
    stages rely on.  Character classes are the ASCII ones (see README). */
module Common {

  datatype Option<T> = None | Some(value: T)

  /** A FASTA record as Biopython parses it; writers copy it unchanged. */
  datatype Entry = Entry(id: string, description: string, sequence: string)

  // ---------------------------------------------------------------------
  // Character classes
  // ---------------------------------------------------------------------

  predicate IsDigit(c: char) { '0' <= c <= '9' }

  predicate IsLetter(c: char) { 'A' <= c <= 'Z' || 'a' <= c <= 'z' }

  predicate IsAlnum(c: char) { IsDigit(c) || IsLetter(c) }

  /** The characters for which Python's `str.isspace()` holds; `str.strip()`
      with no argument removes exactly these. */
  predicate IsSpace(c: char) {
    c == ' ' || ('\t' <= c <= '\r') || ('\U{1C}' <= c <= '\U{1F}')
    || c == '\U{85}' || c == '\U{A0}' || c == '\U{1680}'
    || ('\U{2000}' <= c <= '\U{200A}') || c == '\U{2028}' || c == '\U{2029}'
    || c == '\U{202F}' || c == '\U{205F}' || c == '\U{3000}'
  }

  // ---------------------------------------------------------------------
  // str.strip(), str.upper(), str.lower()
  // ---------------------------------------------------------------------

  function StripLeft(s: string): string
  {
    if |s| > 0 && IsSpace(s[0]) then StripLeft(s[1..]) else s
  }

  function StripRight(s: string): string
  {
    if |s| > 0 && IsSpace(s[|s| - 1]) then StripRight(s[..|s| - 1]) else s
  }

  /** `lstrip` removes a leading run of whitespace and stops at the first
      other character. */
  lemma {:induction false} StripLeftSpec(s: string)
    ensures var r := StripLeft(s);
      |r| <= |s| && r == s[|s| - |r|..] && (r == [] || !IsSpace(r[0]))
      && forall k :: 0 <= k < |s| - |r| ==> IsSpace(s[k])
    decreases |s|
  {
    if |s| > 0 && IsSpace(s[0]) {
      var t := s[1..];
      StripLeftSpec(t);
      var r := StripLeft(t);
      assert t[|t| - |r|..] == s[|s| - |r|..];
      forall k | 0 <= k < |s| - |r| ensures IsSpace(s[k]) {
        if k > 0 { assert s[k] == t[k - 1]; }
      }
    }
  }

  /** `rstrip` removes a trailing run of whitespace and stops at the last
      other character. */
  lemma {:induction false} StripRightSpec(s: string)
    ensures var r := StripRight(s);
      |r| <= |s| && r == s[..|r|] && (r == [] || !IsSpace(r[|r| - 1]))
      && forall k :: |r| <= k < |s| ==> IsSpace(s[k])
    decreases |s|
  {
    if |s| > 0 && IsSpace(s[|s| - 1]) {
      var t := s[..|s| - 1];
      StripRightSpec(t);
      var r := StripRight(t);
      assert t[..|r|] == s[..|r|];
      forall k | |r| <= k < |s| ensures IsSpace(s[k]) {
        if k < |t| { assert s[k] == t[k]; }
      }
    }
  }

  /** Python's `s.strip()`. */
  function Strip(s: string): string
  {
    StripRight(StripLeft(s))
  }

  /** A string with no whitespace is its own strip. */
  lemma StripNoSpace(s: string)
    requires forall k :: 0 <= k < |s| ==> !IsSpace(s[k])
    ensures Strip(s) == s
  {
  }

  /** Stripping twice is stripping once. */
  lemma StripIdempotent(s: string)
    ensures Strip(Strip(s)) == Strip(s)
  {
    var l := StripLeft(s);
    var t := Strip(s);
    StripLeftSpec(s);
    StripRightSpec(l);
    if t != [] {
      assert t == l[..|t|] && t[0] == l[0];
      assert StripLeft(t) == t;
      StripRightSpec(t);
      assert StripRight(t) == t;
    }
  }

  function UpperChar(c: char): char
  {
    if 'a' <= c <= 'z' then (c as int - 32) as char else c
  }

  function LowerChar(c: char): char
  {
    if 'A' <= c <= 'Z' then (c as int + 32) as char else c
  }

  /** `s.upper()` on ASCII letters. */
  function Upper(s: string): (r: string)
    ensures |r| == |s|
    ensures forall i :: 0 <= i < |s| ==> r[i] == UpperChar(s[i])
  {
    seq(|s|, i requires 0 <= i < |s| => UpperChar(s[i]))
  }

  /** `s.lower()` on ASCII letters. */
  function Lower(s: string): (r: string)
    ensures |r| == |s|
    ensures forall i :: 0 <= i < |s| ==> r[i] == LowerChar(s[i])
  {
    seq(|s|, i requires 0 <= i < |s| => LowerChar(s[i]))
  }

  // ---------------------------------------------------------------------
  // Prefixes, suffixes, substrings
  // ---------------------------------------------------------------------

  predicate StartsWith(s: string, p: string) { |p| <= |s| && s[..|p|] == p }

  predicate EndsWith(s: string, p: string) { |p| <= |s| && s[|s| - |p|..] == p }

  /** `sub in s` for Python strings. */
  predicate Contains(s: string, sub: string)
  {
    exists i :: 0 <= i <= |s| - |sub| && OccursAt(s, sub, i)
  }

  predicate OccursAt(s: string, sub: string, i: int)
    requires 0 <= i <= |s| - |sub|
  {
    s[i..i + |sub|] == sub
  }

  /** Case-insensitive substring test: the model of pandas'
      `str.contains(pattern, case=False)` for patterns without regex
      metacharacters. */
  predicate ContainsIgnoreCase(s: string, sub: string)
  {
    Contains(Lower(s), Lower(sub))
  }

  // ---------------------------------------------------------------------
  // str.split(sep) and its inverse
  // ---------------------------------------------------------------------

  /** Python's `s.split(sep)` for a one-character separator. */
  function Split(s: string, sep: char): (r: seq<string>)
    ensures |r| >= 1
    ensures forall i :: 0 <= i < |r| ==> sep !in r[i]
  {
    if s == [] then [[]]
    else
      var rest := Split(s[1..], sep);
      if s[0] == sep then [[]] + rest else [[s[0]] + rest[0]] + rest[1..]
  }

  /** `sep.join(parts)`. */
  function Join(parts: seq<string>, sep: char): string
  {
    if |parts| == 0 then []
    else if |parts| == 1 then parts[0]
    else parts[0] + [sep] + Join(parts[1..], sep)
  }

  /** Joining the fields of a split gives the original string back. */
  lemma {:induction false} JoinSplit(s: string, sep: char)
    ensures Join(Split(s, sep), sep) == s
  {
    if s != [] {
      JoinSplit(s[1..], sep);
      var rest := Split(s[1..], sep);
      if s[0] == sep {
        assert Split(s, sep) == [[]] + rest;
      } else {
        var r := Split(s, sep);
        assert r == [[s[0]] + rest[0]] + rest[1..];
        if |rest| == 1 {
        } else {
          assert r[1..] == rest[1..];
          assert Join(rest, sep) == rest[0] + [sep] + Join(rest[1..], sep);
        }
      }
    }
  }

  /** A string without the separator is a single field. */
  lemma {:induction false} SplitNoSep(a: string, sep: char)
    requires sep !in a
    ensures Split(a, sep) == [a]
  {
    if a != [] {
      SplitNoSep(a[1..], sep);
      assert [a[0]] + a[1..] == a;
    }
  }

  /** Splitting `a + sep + b`, where `a` has no separator, yields `a` first. */
  lemma {:induction false} SplitCons(a: string, sep: char, b: string)
    requires sep !in a
    ensures Split(a + [sep] + b, sep) == [a] + Split(b, sep)
  {
    if a == [] {
      assert a + [sep] + b == [sep] + b;
      assert ([sep] + b)[1..] == b;
    } else {
      SplitCons(a[1..], sep, b);
      var s := a + [sep] + b;
      assert s[1..] == a[1..] + [sep] + b;
      assert [a[0]] + a[1..] == a;
    }
  }

  /** Splitting a join of separator-free fields gives the fields back. */
  lemma {:induction false} SplitJoin(parts: seq<string>, sep: char)
    requires |parts| >= 1
    requires forall i :: 0 <= i < |parts| ==> sep !in parts[i]
    ensures Split(Join(parts, sep), sep) == parts
  {
    if |parts| == 1 {
      SplitNoSep(parts[0], sep);
    } else {
      SplitJoin(parts[1..], sep);
      SplitCons(parts[0], sep, Join(parts[1..], sep));
      assert [parts[0]] + parts[1..] == parts;
    }
  }

  /** Joining two non-empty lists of fields puts one separator between
      their joins. */
  lemma {:induction false} JoinAppend(p: seq<string>, q: seq<string>, sep: char)
    requires |p| >= 1 && |q| >= 1
    ensures Join(p + q, sep) == Join(p, sep) + [sep] + Join(q, sep)
  {
    assert (p + q)[0] == p[0];
    assert (p + q)[1..] == p[1..] + q;
    if |p| > 1 {
      JoinAppend(p[1..], q, sep);
    }
  }

  /** Splitting at one separator splits the two sides independently. */
  lemma SplitAppend(a: string, sep: char, c: string)
    ensures Split(a + [sep] + c, sep) == Split(a, sep) + Split(c, sep)
  {
    var p := Split(a, sep);
    var q := Split(c, sep);
    JoinSplit(a, sep);
    JoinSplit(c, sep);
    JoinAppend(p, q, sep);
    SplitJoin(p + q, sep);
  }

  /** `"".join(parts)`. */
  function Concat(parts: seq<string>): string
  {
    if parts == [] then [] else parts[0] + Concat(parts[1..])
  }

  lemma {:induction false} ConcatSnoc(parts: seq<string>, x: string)
    ensures Concat(parts + [x]) == Concat(parts) + x
  {
    if parts != [] {
      ConcatSnoc(parts[1..], x);
      assert (parts + [x])[1..] == parts[1..] + [x];
    }
  }

  // ---------------------------------------------------------------------
  // Lexicographic order of Python strings and sorted(set)
  // ---------------------------------------------------------------------

  /** Python's `a < b` on strings: code-point lexicographic order, a proper
      prefix being smaller. */
  predicate LexLess(a: string, b: string)
    decreases |a|
  {
    |b| > 0 && (|a| == 0 || a[0] < b[0] || (a[0] == b[0] && LexLess(a[1..], b[1..])))
  }

  predicate LexLe(a: string, b: string) { a == b || LexLess(a, b) }

  lemma {:induction false} LexLessIrreflexive(a: string)
    ensures !LexLess(a, a)
  {
    if |a| > 0 { LexLessIrreflexive(a[1..]); }
  }

  lemma {:induction false} LexLessTotal(a: string, b: string)
    ensures a == b || LexLess(a, b) || LexLess(b, a)
  {
    if |a| > 0 && |b| > 0 && a[0] == b[0] {
      LexLessTotal(a[1..], b[1..]);
      if a[1..] == b[1..] {
        assert a == [a[0]] + a[1..] && b == [b[0]] + b[1..];
      }
    }
  }

  lemma {:induction false} LexLessTrans(a: string, b: string, c: string)
    requires LexLess(a, b) && LexLess(b, c)
    ensures LexLess(a, c)
  {
    if |a| > 0 && a[0] == b[0] && b[0] == c[0] {
      LexLessTrans(a[1..], b[1..], c[1..]);
    }
  }

  lemma LexLessAsymmetric(a: string, b: string)
    requires LexLess(a, b)
    ensures !LexLess(b, a)
  {
    if LexLess(b, a) {
      LexLessTrans(a, b, a);
      LexLessIrreflexive(a);
    }
  }

  predicate IsLeast(m: string, s: set<string>)
  {
    m in s && forall y :: y in s ==> LexLe(m, y)
  }

  lemma {:induction false} HasLeast(s: set<string>)
    requires s != {}
    ensures exists m :: IsLeast(m, s)
  {
    var x :| x in s;
    if s != {x} {
      HasLeast(s - {x});
      var m :| IsLeast(m, s - {x});
      LexLessTotal(x, m);
      if LexLess(x, m) {
        forall y | y in s ensures LexLe(x, y) {
          if y != x && y != m {
            assert y in s - {x};
            LexLessTrans(x, m, y);
          }
        }
        assert IsLeast(x, s);
      } else {
        forall y | y in s ensures LexLe(m, y) {
          if y != x { assert y in s - {x}; }
        }
        assert IsLeast(m, s);
      }
    } else {
      assert IsLeast(x, s);
    }
  }

  lemma LeastUnique(m1: string, m2: string, s: set<string>)
    requires IsLeast(m1, s) && IsLeast(m2, s)
    ensures m1 == m2
  {
    if m1 != m2 { LexLessAsymmetric(m1, m2); }
  }

  lemma LeastUniqueAll(s: set<string>)
    ensures forall m1, m2 :: IsLeast(m1, s) && IsLeast(m2, s) ==> m1 == m2
  {
    forall m1, m2 | IsLeast(m1, s) && IsLeast(m2, s) ensures m1 == m2 {
      LeastUnique(m1, m2, s);
    }
  }

  /** The smallest string of a non-empty set. */
  function Least(s: set<string>): (m: string)
    requires s != {}
    ensures IsLeast(m, s)
  {
    HasLeast(s);
    LeastUniqueAll(s);
    var m :| IsLeast(m, s); m
  }

  predicate StrictlySorted(r: seq<string>)
  {
    forall i, j :: 0 <= i < j < |r| ==> LexLess(r[i], r[j])
  }

  /** Python's `sorted(s)` for a set of strings: the elements of `s`, each
      once, in increasing order. */
  function SortedSet(s: set<string>): (r: seq<string>)
    ensures |r| == |s|
    ensures forall x :: x in r <==> x in s
    ensures StrictlySorted(r)
    decreases |s|
  {
    if s == {} then []
    else
      var m := Least(s);
      var rest := SortedSet(s - {m});
      LeastCons(m, s, rest);
      [m] + rest
  }

  /** The least element put in front of the sorted rest. */
  lemma LeastCons(m: string, s: set<string>, rest: seq<string>)
    requires IsLeast(m, s)
    requires |rest| == |s - {m}| && (forall x :: x in rest <==> x in s - {m}) && StrictlySorted(rest)
    ensures |[m] + rest| == |s| && (forall x :: x in [m] + rest <==> x in s) && StrictlySorted([m] + rest)
  {
    var r := [m] + rest;
    forall j | 0 <= j < |rest| ensures LexLess(m, rest[j]) {
      assert rest[j] in rest;
      assert rest[j] in s && rest[j] != m;
    }
    forall i, j | 0 <= i < j < |r| ensures LexLess(r[i], r[j]) {
      assert r[j] == rest[j - 1];
      if i > 0 { assert r[i] == rest[i - 1]; }
    }
  }

  /** A strictly sorted sequence has no repeated element. */
  lemma SortedDistinct(r: seq<string>, i: int, j: int)
    requires StrictlySorted(r) && 0 <= i < j < |r|
    ensures r[i] != r[j]
  {
    LexLessIrreflexive(r[i]);
  }

  // ---------------------------------------------------------------------
  // Decimal numerals: str(int), str.isdigit(), int(str)
  // ---------------------------------------------------------------------

  /** `s.isdigit()` restricted to ASCII digits. */
  predicate IsDigitString(s: string)
  {
    |s| > 0 && forall i :: 0 <= i < |s| ==> IsDigit(s[i])
  }

  function DigitChar(d: nat): char
    requires d < 10
  {
    ('0' as int + d) as char
  }

  /** The value of the ASCII digits of `s`, read in order; other characters
      (the underscores Python allows between digits) are skipped. */
  function DigitsValue(s: string): nat
  {
    if s == [] then 0
    else
      var last := s[|s| - 1];
      if IsDigit(last) then DigitsValue(s[..|s| - 1]) * 10 + (last as int - '0' as int)
      else DigitsValue(s[..|s| - 1])
  }

  /** What Python's `int()` accepts after the sign: digits, with single
      underscores allowed between two digits. */
  predicate IsIntBody(s: string)
  {
    && |s| > 0 && IsDigit(s[0]) && IsDigit(s[|s| - 1])
    && (forall i :: 0 <= i < |s| ==> IsDigit(s[i]) || s[i] == '_')
    && (forall i :: 0 <= i < |s| - 1 ==> !(s[i] == '_' && s[i + 1] == '_'))
  }

  /** Python's `int(s)` for a string: `Some(value)`, or `None` where Python
      raises ValueError. */
  function PyInt(s: string): (r: Option<int>)
    ensures r.Some? ==> |Strip(s)| > 0
  {
    var t := Strip(s);
    if |t| > 0 && (t[0] == '+' || t[0] == '-') then
      if IsIntBody(t[1..]) then
        var v: int := DigitsValue(t[1..]);
        Some(if t[0] == '-' then -v else v)
      else None
    else if IsIntBody(t) then Some(DigitsValue(t))
    else None
  }

  /** `str(n)` for a natural number. */
  function NatToString(n: nat): (r: string)
    ensures IsDigitString(r)
    ensures DigitsValue(r) == n
  {
    var d := DigitChar(n % 10);
    if n < 10 then [d]
    else
      var p := NatToString(n / 10);
      assert (p + [d])[..|p + [d]| - 1] == p;
      p + [d]
  }

  /** `str(i)` for an integer. */
  function IntToString(i: int): string
  {
    if i < 0 then "-" + NatToString(-i) else NatToString(i)
  }

  /** A digit string is a valid `int()` body. */
  lemma DigitStringIsBody(s: string)
    requires IsDigitString(s)
    ensures IsIntBody(s)
    ensures forall k :: 0 <= k < |s| ==> !IsSpace(s[k])
  {
  }

  /** `int()` reads back what `str()` writes. */
  lemma IntToStringRoundTrip(i: int)
    ensures PyInt(IntToString(i)) == Some(i)
  {
    var body := NatToString(if i < 0 then -i else i);
    DigitStringIsBody(body);
    if i < 0 {
      var s := "-" + body;
      assert s[1..] == body;
      assert forall k :: 0 <= k < |s| ==> !IsSpace(s[k]);
      StripNoSpace(s);
      assert PyInt(s) == Some(-(DigitsValue(body) as int));
    } else {
      StripNoSpace(body);
      assert body[0] != '+' && body[0] != '-';
      assert PyInt(body) == Some(DigitsValue(body));
    }
  }

  /** A token for which `isdigit()` holds is read by `int()` as its digits. */
  lemma DigitStringIsInt(s: string)
    requires IsDigitString(s)
    ensures PyInt(s) == Some(DigitsValue(s))
  {
    StripNoSpace(s);
  }

  // ---------------------------------------------------------------------
  // os.path.splitext and os.path.join (POSIX)
  // ---------------------------------------------------------------------

  /** The index of the last `c` in `s`, or -1. */
  function LastIndexOf(s: string, c: char): int
  {
    if |s| == 0 then -1
    else if s[|s| - 1] == c then |s| - 1
    else LastIndexOf(s[..|s| - 1], c)
  }

  lemma {:induction false} LastIndexOfSpec(s: string, c: char)
    ensures var r := LastIndexOf(s, c);
      -1 <= r < |s| && (r >= 0 ==> s[r] == c) && forall k :: r < k < |s| ==> s[k] != c
    decreases |s|
  {
    if |s| > 0 && s[|s| - 1] != c {
      var t := s[..|s| - 1];
      LastIndexOfSpec(t, c);
      var r := LastIndexOf(t, c);
      if r >= 0 { assert s[r] == t[r]; }
      forall k | r < k < |s| ensures s[k] != c {
        if k < |t| { assert s[k] == t[k]; }
      }
    }
  }

  /** Some character of `p[lo..hi]` is not a dot. */
  predicate NonDotIn(p: string, lo: int, hi: int)
    requires 0 <= lo && hi <= |p|
    decreases hi - lo
  {
    lo < hi && (p[lo] != '.' || NonDotIn(p, lo + 1, hi))
  }

  lemma {:induction false} NonDotInSpec(p: string, lo: int, hi: int)
    requires 0 <= lo && hi <= |p|
    ensures NonDotIn(p, lo, hi) <==> exists k :: lo <= k < hi && p[k] != '.'
    decreases hi - lo
  {
    if lo < hi {
      NonDotInSpec(p, lo + 1, hi);
      if p[lo] == '.' && exists k :: lo <= k < hi && p[k] != '.' {
        var k :| lo <= k < hi && p[k] != '.';
        assert k != lo;
      }
    }
  }

  /** `os.path.splitext(p)`: split at the last dot of the last path
      component, unless that component has only dots before it. */
  function SplitExt(p: string): (string, string)
  {
    var sep := LastIndexOf(p, '/');
    var dot := LastIndexOf(p, '.');
    LastIndexOfSpec(p, '/');
    LastIndexOfSpec(p, '.');
    if dot > sep && NonDotIn(p, sep + 1, dot) then (p[..dot], p[dot..])
    else (p, [])
  }

  /** Root and extension concatenate back to the path; the extension is
      empty or a dot followed by neither dot nor slash. */
  lemma SplitExtSpec(p: string)
    ensures var r := SplitExt(p);
      r.0 + r.1 == p && (r.1 == [] || (r.1[0] == '.' && '.' !in r.1[1..] && '/' !in r.1))
  {
    var sep := LastIndexOf(p, '/');
    var dot := LastIndexOf(p, '.');
    LastIndexOfSpec(p, '/');
    LastIndexOfSpec(p, '.');
    if dot > sep && NonDotIn(p, sep + 1, dot) {
      var e := p[dot..];
      assert p[..dot] + e == p;
      forall i | 1 <= i < |e| ensures e[i] != '.' && e[i] != '/' { assert e[i] == p[dot + i]; }
      assert e[1..] == p[dot + 1..];
    }
  }

  /** `os.path.splitext(p)[0]`. */
  function Stem(p: string): string { SplitExt(p).0 }

  /** A file name `stem.ext` (no slash, at least one non-dot character in the
      stem, no dot in the extension) splits back into its two parts. */
  lemma StemOfName(stem: string, ext: string)
    requires '/' !in stem && '/' !in ext && '.' !in ext
    requires exists k :: 0 <= k < |stem| && stem[k] != '.'
    ensures SplitExt(stem + "." + ext) == (stem, "." + ext)
  {
    var p := stem + "." + ext;
    var k :| 0 <= k < |stem| && stem[k] != '.';
    assert p[k] == stem[k];
    assert '/' !in p by {
      forall i | 0 <= i < |p| ensures p[i] != '/' {
        if i < |stem| { assert p[i] == stem[i]; }
        else if i > |stem| { assert p[i] == ext[i - |stem| - 1]; }
      }
    }
    LastIndexOfSpec(p, '/');
    LastIndexOfSpec(p, '.');
    assert LastIndexOf(p, '/') == -1;
    assert LastIndexOf(p, '.') == |stem| by {
      forall i | |stem| < i < |p| ensures p[i] != '.' { assert p[i] == ext[i - |stem| - 1]; }
      assert p[|stem|] == '.';
    }
    NonDotInSpec(p, 0, |stem|);
    assert p[..|stem|] == stem;
    assert p[|stem|..] == "." + ext;
  }

  /** `os.path.join(a, b)` on POSIX. */
  function PathJoin(a: string, b: string): string
  {
    if StartsWith(b, "/") then b
    else if a == [] || EndsWith(a, "/") then a + b
    else a + "/" + b
  }

  /** Joining a folder with two different names that do not start with `/`
      gives two different paths. */
  lemma PathJoinInjective(dir: string, a: string, b: string)
    requires a != b && !StartsWith(a, "/") && !StartsWith(b, "/")
    ensures PathJoin(dir, a) != PathJoin(dir, b)
  {
    if dir == [] || EndsWith(dir, "/") {
      assert (dir + a)[|dir|..] == a && (dir + b)[|dir|..] == b;
    } else {
      assert (dir + "/" + a)[|dir| + 1..] == a && (dir + "/" + b)[|dir| + 1..] == b;
    }
  }

  /** `[f for f in listing if f.endswith(".fasta")]`. */
  function FastaFiles(listing: seq<string>): (r: seq<string>)
    ensures forall f :: f in r <==> f in listing && EndsWith(f, ".fasta")
  {
    if listing == [] then []
    else (if EndsWith(listing[0], ".fasta") then [listing[0]] else []) + FastaFiles(listing[1..])
  }

  // ---------------------------------------------------------------------
  // The numbered-file choice shared by the BLAST and alignment stages
  // ---------------------------------------------------------------------

  /** `[int(x.strip()) for x in tokens if x.strip().isdigit()]`. */
  function DigitTokens(tokens: seq<string>): (r: seq<nat>)
    ensures |r| <= |tokens|
  {
    if tokens == [] then []
    else
      var t := Strip(tokens[0]);
      (if IsDigitString(t) then [DigitsValue(t)] else []) + DigitTokens(tokens[1..])
  }

  /** `[items[i - 1] for i in numbers if 1 <= i <= len(items)]`. */
  function PickByNumber<T>(items: seq<T>, numbers: seq<int>): (r: seq<T>)
    ensures |r| <= |numbers|
    ensures forall x :: x in r ==> x in items
  {
    if numbers == [] then []
    else
      var n := numbers[0];
      (if 1 <= n <= |items| then [items[n - 1]] else []) + PickByNumber(items, numbers[1..])
  }

  /** Choosing from several answers one after another is choosing from
      their concatenation: order and repetitions are kept. */
  lemma {:induction false} PickByNumberAppend<T>(items: seq<T>, a: seq<int>, b: seq<int>)
    ensures PickByNumber(items, a + b) == PickByNumber(items, a) + PickByNumber(items, b)
    decreases |a|
  {
    if a == [] {
      assert a + b == b;
    } else {
      var ab := a + b;
      assert ab[0] == a[0];
      assert ab[1..] == a[1..] + b;
      PickByNumberAppend(items, a[1..], b);
      var n := a[0];
      var h := if 1 <= n <= |items| then [items[n - 1]] else [];
      var x, y := PickByNumber(items, a[1..]), PickByNumber(items, b);
      assert PickByNumber(items, ab) == h + PickByNumber(items, ab[1..]);
      assert PickByNumber(items, a) == h + x;
      assert PickByNumber(items, ab[1..]) == x + y;
      ConcatAssoc(h, x, y);
    }
  }

  lemma ConcatAssoc<T>(h: seq<T>, x: seq<T>, y: seq<T>)
    ensures h + (x + y) == (h + x) + y
  {
  }

  /** When every number is in range, the k-th choice is item `numbers[k]`. */
  lemma {:induction false} PickByNumberInRange<T>(items: seq<T>, numbers: seq<int>)
    requires forall k :: 0 <= k < |numbers| ==> 1 <= numbers[k] <= |items|
    ensures |PickByNumber(items, numbers)| == |numbers|
    ensures forall k :: 0 <= k < |numbers| ==> PickByNumber(items, numbers)[k] == items[numbers[k] - 1]
  {
    if numbers != [] {
      var rest := numbers[1..];
      assert forall k :: 0 <= k < |rest| ==> rest[k] == numbers[k + 1];
      PickByNumberInRange(items, rest);
      var tail := PickByNumber(items, rest);
      var r := PickByNumber(items, numbers);
      assert r == [items[numbers[0] - 1]] + tail;
      forall k | 0 <= k < |numbers| ensures r[k] == items[numbers[k] - 1] {
        if k > 0 {
          assert r[k] == tail[k - 1];
        }
      }
    }
  }

  /** Numbers that are all out of range choose nothing. */
  lemma {:induction false} PickByNumberOutOfRange<T>(items: seq<T>, numbers: seq<int>)
    requires forall k :: 0 <= k < |numbers| ==> !(1 <= numbers[k] <= |items|)
    ensures PickByNumber(items, numbers) == []
  {
    if numbers != [] {
      PickByNumberOutOfRange(items, numbers[1..]);
    }
  }

  /** The rule of both file menus: an answer of `0` (after stripping) takes
      every file; otherwise the digit tokens of the comma-separated answer
      are 1-based positions, kept in the order given, repetitions included,
      and the other tokens and out-of-range positions are dropped. */
  function SelectByNumbers<T>(items: seq<T>, answer: string): (r: seq<T>)
    ensures Strip(answer) == "0" ==> r == items
    ensures forall k :: 0 <= k < |r| ==> r[k] in items
  {
    var sel := Strip(answer);
    if sel == "0" then items else PickByNumber(items, DigitTokens(Split(sel, ',')))
  }
}
