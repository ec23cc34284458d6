/**
 String and path helpers used by the extractor: the parts of Python's `str`
 and `os.path` (POSIX flavour, `posixpath`) that the extractor relies on,
 written out so that their results can be reasoned about.
 */
module PathText {

  /** Index of the last occurrence of `c` in `s`, or -1 when there is none (`str.rfind`). */
  function LastIndex(s: string, c: char): (r: int)
    ensures -1 <= r < |s|
    ensures r >= 0 ==> s[r] == c
    ensures forall j :: r < j < |s| ==> s[j] != c
  {
    if |s| == 0 then -1
    else if s[|s| - 1] == c then |s| - 1
    else LastIndex(s[..|s| - 1], c)
  }

  /** `str.rfind` is pinned by its result: an index holding `c` (or -1) with no `c` after it. */
  lemma {:induction false} LastIndexIs(s: string, c: char, k: int)
    requires -1 <= k < |s|
    requires k >= 0 ==> s[k] == c
    requires forall j :: k < j < |s| ==> s[j] != c
    ensures LastIndex(s, c) == k
  {
    if |s| > 0 && s[|s| - 1] != c {
      var init := s[..|s| - 1];
      forall j | k < j < |init|
        ensures init[j] != c
      {
        assert init[j] == s[j];
      }
      LastIndexIs(init, c, k);
    }
  }

  /** `sub` occurs in `s` starting at offset `k`. */
  ghost predicate OccursAt(s: string, sub: string, k: int)
  {
    0 <= k && k + |sub| <= |s| && s[k..k + |sub|] == sub
  }

  /** Python's `sub in s` on strings: a left-to-right substring search. */
  predicate Contains(s: string, sub: string)
    ensures Contains(s, sub) ==> |sub| <= |s|
    decreases |s|
  {
    |sub| <= |s| && (s[..|sub|] == sub || (|s| > 0 && Contains(s[1..], sub)))
  }

  /** The search agrees with the definition of a substring: some offset holds `sub`. */
  lemma {:induction false} ContainsIffOccurs(s: string, sub: string)
    ensures Contains(s, sub) <==> exists k :: OccursAt(s, sub, k)
    decreases |s|
  {
    if Contains(s, sub) {
      if s[..|sub|] == sub {
        assert OccursAt(s, sub, 0);
      } else {
        ContainsIffOccurs(s[1..], sub);
        var k :| OccursAt(s[1..], sub, k);
        assert s[k + 1..k + 1 + |sub|] == s[1..][k..k + |sub|];
        assert OccursAt(s, sub, k + 1);
      }
    }
    if k :| OccursAt(s, sub, k) {
      if k == 0 {
        assert s[..|sub|] == sub;
      } else {
        assert s[1..][k - 1..k - 1 + |sub|] == s[k..k + |sub|];
        assert OccursAt(s[1..], sub, k - 1);
        ContainsIffOccurs(s[1..], sub);
      }
    }
  }

  /** `posixpath.basename`: what follows the last '/'. */
  function Basename(p: string): (r: string)
    ensures '/' !in r
    ensures |r| <= |p| && r == p[|p| - |r|..]
    ensures |r| < |p| ==> p[|p| - |r| - 1] == '/'
  {
    var sep := LastIndex(p, '/');
    var r := p[sep + 1..];
    forall i | 0 <= i < |r|
      ensures r[i] != '/'
    {
      assert r[i] == p[sep + 1 + i];
    }
    r
  }

  /** The basename of dir/name, for a name without '/', is that name. */
  lemma BasenameAfterSlash(dir: string, name: string)
    requires '/' !in name
    ensures Basename(dir + "/" + name) == name
  {
    var p := dir + "/" + name;
    var n := |dir|;
    forall j | n < j < |p|
      ensures p[j] != '/'
    {
      assert p[j] == name[j - n - 1];
    }
    assert p[n] == '/';
    assert LastIndex(p, '/') == n;
    assert p[n + 1..] == name;
  }

  /** Every character of `s` is a '.'. */
  predicate AllDots(s: string)
  {
    forall i | 0 <= i < |s| :: s[i] == '.'
  }

  /**
   Where `posixpath.splitext` cuts `p`: the last '.', provided it lies in the last path
   component and something other than dots precedes it there (so ".bashrc" and "..pdf"
   have no extension); -1 when there is no extension.
   */
  function ExtensionStart(p: string): (k: int)
    ensures k == -1 || (0 <= k < |p| && p[k] == '.')
    ensures k >= 0 ==> forall j :: k < j < |p| ==> p[j] != '.' && p[j] != '/'
  {
    var sep := LastIndex(p, '/');
    var dot := LastIndex(p, '.');
    if dot > sep && !AllDots(p[sep + 1..dot]) then dot else -1
  }

  /** `posixpath.splitext`: the path cut into a root and an extension that is empty or starts with its only '.'. */
  function SplitExt(p: string): (r: (string, string))
    ensures r.0 + r.1 == p
    ensures r.1 == [] || (r.1[0] == '.' && '/' !in r.1 && '.' !in r.1[1..])
  {
    var k := ExtensionStart(p);
    if k >= 0 then
      ExtensionTail(p, k);
      (p[..k], p[k..])
    else
      (p, [])
  }

  lemma ExtensionTail(p: string, k: int)
    requires 0 <= k < |p| && p[k] == '.'
    requires forall j :: k < j < |p| ==> p[j] != '.' && p[j] != '/'
    ensures p[..k] + p[k..] == p
    ensures '/' !in p[k..] && '.' !in p[k..][1..]
  {
    var ext := p[k..];
    forall i | 0 <= i < |ext|
      ensures ext[i] != '/' && (i > 0 ==> ext[i] != '.')
    {
      assert ext[i] == p[k + i];
    }
    assert p[..k] + ext == p;
  }

  /** A file name without '/' or '.', followed by an extension, is its own basename and splits at that extension. */
  lemma SplitPlainName(base: string, ext: string)
    requires base != [] && '/' !in base && '.' !in base
    requires ext != [] && ext[0] == '.' && '/' !in ext && '.' !in ext[1..]
    ensures Basename(base + ext) == base + ext
    ensures SplitExt(base + ext) == (base, ext)
  {
    var p := base + ext;
    var n := |base|;
    forall i | 0 <= i < |p|
      ensures p[i] != '/'
      ensures i != n ==> p[i] != '.'
    {
      if i < n {
        assert p[i] == base[i];
      } else if i > n {
        assert p[i] == ext[1..][i - n - 1];
      }
    }
    assert p[n] == '.';
    assert LastIndex(p, '/') == -1;
    assert LastIndex(p, '.') == n;
    assert p[..n] == base && p[n..] == ext;
    assert p[0] == base[0];
    assert !AllDots(p[0..n]);
    assert ExtensionStart(p) == n;
  }

  /**
   Where `splitext` cuts: in a path <dir><stem><ext>, whose last component is <stem><ext>,
   whose stem holds a character other than '.', and whose extension is one '.' followed
   by neither '.' nor '/', the cut falls before the extension.
   */
  lemma SplitExtAtLastDot(dir: string, stem: string, ext: string)
    requires dir == [] || dir[|dir| - 1] == '/'
    requires '/' !in stem && !AllDots(stem)
    requires ext != [] && ext[0] == '.' && '/' !in ext && '.' !in ext[1..]
    ensures SplitExt(dir + stem + ext) == (dir + stem, ext)
  {
    var p := dir + stem + ext;
    var n := |dir|;
    var m := n + |stem|;
    assert p[n..] == stem + ext;
    assert p[m + 1..] == ext[1..];
    assert p[n..m] == stem;
    assert n == 0 || p[n - 1] == '/' by {
      if n > 0 { assert p[n - 1] == dir[n - 1]; }
    }
    assert p[m] == ext[0];
    ExtensionAfterStem(p, n, m);
    assert p[..m] == dir + stem;
    assert p[m..] == ext;
  }

  /** The index-level half of SplitExtAtLastDot: the last dot of the last
      component starts the extension when something other than dots precedes it. */
  lemma ExtensionAfterStem(p: string, n: nat, m: nat)
    requires n <= m < |p|
    requires n == 0 || p[n - 1] == '/'
    requires '/' !in p[n..] && p[m] == '.' && '.' !in p[m + 1..]
    requires !AllDots(p[n..m])
    ensures SplitExt(p) == (p[..m], p[m..])
  {
    forall j | n <= j < |p|
      ensures p[j] != '/'
      ensures m < j ==> p[j] != '.'
    {
      assert p[j] == p[n..][j - n];
      if m < j {
        assert p[j] == p[m + 1..][j - m - 1];
      }
    }
    LastIndexIs(p, '/', n - 1);
    LastIndexIs(p, '.', m);
    assert ExtensionStart(p) == m;
  }

  /**
   And where it does not: a last component made of leading dots followed by a part
   without '.' (".bashrc", "..pdf", "README") has no extension.
   */
  lemma SplitExtNoExtension(dir: string, dots: string, tail: string)
    requires dir == [] || dir[|dir| - 1] == '/'
    requires AllDots(dots) && '/' !in tail && '.' !in tail
    ensures SplitExt(dir + dots + tail) == (dir + dots + tail, [])
  {
    var p := dir + dots + tail;
    var n := |dir|;
    var m := n + |dots|;
    forall j | n <= j < |p|
      ensures p[j] != '/'
      ensures j < m <==> p[j] == '.'
    {
      if j < m {
        assert p[j] == dots[j - n];
      } else {
        assert p[j] == tail[j - m];
      }
    }
    assert n == 0 || p[n - 1] == '/' by {
      if n > 0 { assert p[n - 1] == dir[n - 1]; }
    }
    NoExtensionAfterDots(p, n, m);
  }

  /** The index-level half of SplitExtNoExtension: a last component made of
      dots followed by a dotless tail has no extension. */
  lemma NoExtensionAfterDots(p: string, n: nat, m: nat)
    requires n <= m <= |p|
    requires n == 0 || p[n - 1] == '/'
    requires forall j :: n <= j < |p| ==> p[j] != '/'
    requires forall j :: n <= j < |p| ==> (j < m <==> p[j] == '.')
    ensures ExtensionStart(p) == -1
  {
    LastIndexIs(p, '/', n - 1);
    var dot := LastIndex(p, '.');
    if dot >= n {
      forall i | 0 <= i < dot - n
        ensures p[n..dot][i] == '.'
      {
        assert p[n..dot][i] == p[n + i];
      }
    }
  }

  /** The root of a path without '/' has none either. */
  lemma SplitExtRootKeepsSlashFree(p: string)
    requires '/' !in p
    ensures '/' !in SplitExt(p).0
  {
    var root := SplitExt(p).0;
    assert root + SplitExt(p).1 == p;
    forall i | 0 <= i < |root|
      ensures root[i] != '/'
    {
      assert root[i] == p[i];
    }
  }

  /** `posixpath.join(a, b)`: an absolute `b` replaces `a`; otherwise one '/' separates them. */
  function Join(a: string, b: string): (r: string)
  {
    if |b| > 0 && b[0] == '/' then b
    else if a == [] || a[|a| - 1] == '/' then a + b
    else a + "/" + b
  }

  /** A path that does not start with '/' is appended to a directory whose name does not end with one. */
  lemma JoinRelative(a: string, b: string)
    requires a != [] && a[|a| - 1] != '/'
    requires b == [] || b[0] != '/'
    ensures Join(a, b) == a + "/" + b
  {
  }

  /** Joining to one directory keeps distinct relative names distinct. */
  lemma JoinInjective(a: string, b1: string, b2: string)
    requires b1 == [] || b1[0] != '/'
    requires b2 == [] || b2[0] != '/'
    requires Join(a, b1) == Join(a, b2)
    ensures b1 == b2
  {
    var pre := if a == [] || a[|a| - 1] == '/' then a else a + "/";
    assert Join(a, b1) == pre + b1 && Join(a, b2) == pre + b2;
    assert b1 == (pre + b1)[|pre|..];
    assert b2 == (pre + b2)[|pre|..];
  }

  /** ASCII lower-casing of one character. */
  function LowerChar(c: char): (r: char)
    ensures !('A' <= r <= 'Z')
    ensures !('A' <= c <= 'Z') ==> r == c
    ensures 'A' <= c <= 'Z' ==> r as int == c as int + 32
  {
    if 'A' <= c <= 'Z' then (c as int - 'A' as int + 'a' as int) as char else c
  }

  /** `str.lower`, restricted to the letters A to Z. */
  function LowerAscii(s: string): (r: string)
    ensures |r| == |s|
  {
    seq(|s|, i requires 0 <= i < |s| => LowerChar(s[i]))
  }

  predicate IsDigit(c: char)
  {
    '0' <= c <= '9'
  }

  predicate AllDigits(s: string)
  {
    forall i | 0 <= i < |s| :: IsDigit(s[i])
  }

  function DigitChar(d: nat): (c: char)
    requires d < 10
    ensures IsDigit(c) && c as int - '0' as int == d
  {
    ('0' as int + d) as char
  }

  /** The decimal rendering of a natural number, as `f'{n}'` writes it: no sign, no leading zeros. */
  function Decimal(n: nat): (r: string)
    ensures |r| > 0 && AllDigits(r)
    ensures |r| > 1 ==> r[0] != '0'
  {
    if n < 10 then [DigitChar(n)] else Decimal(n / 10) + [DigitChar(n % 10)]
  }

  /** The number a string of decimal digits denotes. */
  function DecimalValue(s: string): nat
    requires AllDigits(s)
  {
    if s == [] then 0 else DecimalValue(s[..|s| - 1]) * 10 + (s[|s| - 1] as int - '0' as int)
  }

  /** Reading back a rendered number gives the number. */
  lemma {:induction false} DecimalRoundTrip(n: nat)
    ensures DecimalValue(Decimal(n)) == n
  {
    if n >= 10 {
      var s := Decimal(n);
      assert s[..|s| - 1] == Decimal(n / 10);
      DecimalRoundTrip(n / 10);
    }
  }

  /** Distinct numbers have distinct decimal renderings. */
  lemma DecimalInjective(m: nat, n: nat)
    requires Decimal(m) == Decimal(n)
    ensures m == n
  {
    DecimalRoundTrip(m);
    DecimalRoundTrip(n);
  }

  /** Length of the run of digits that starts `s`. */
  function LeadingDigits(s: string): nat
  {
    if s == [] || !IsDigit(s[0]) then 0 else 1 + LeadingDigits(s[1..])
  }

  lemma {:induction false} DigitRunLength(d: string, x: string)
    requires AllDigits(d)
    requires x != [] && !IsDigit(x[0])
    ensures LeadingDigits(d + x) == |d|
  {
    if d != [] {
      assert (d + x)[1..] == d[1..] + x;
      DigitRunLength(d[1..], x);
    }
  }

  /**
   A run of digits followed by a non-digit is delimited unambiguously: when two such
   strings are equal, so are their digit runs and what follows them.
   */
  lemma DigitRunSplit(d1: string, x1: string, d2: string, x2: string)
    requires AllDigits(d1) && AllDigits(d2)
    requires x1 != [] && !IsDigit(x1[0])
    requires x2 != [] && !IsDigit(x2[0])
    requires d1 + x1 == d2 + x2
    ensures d1 == d2 && x1 == x2
  {
    DigitRunLength(d1, x1);
    DigitRunLength(d2, x2);
    assert d1 == (d1 + x1)[..|d1|];
    assert d2 == (d2 + x2)[..|d2|];
    assert x1 == (d1 + x1)[|d1|..];
    assert x2 == (d2 + x2)[|d2|..];
  }
}
