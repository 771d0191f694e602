/**
 * The pure string logic of `process_subset`: the image-extension filter,
 * `os.path.splitext`, and the `{:06d}` naming of the per-subset counter.
 */
module Names {
  import opened Ordering

  // ---------------------------------------------------------------------
  // The extension filter: `fname.lower().endswith(('.jpg', '.jpeg', '.png'))`

  function LowerChar(c: char): char {
    if 'A' <= c <= 'Z' then (c as int + 32) as char else c
  }

  /** `str.lower()`, restricted to the ASCII letters. */
  function Lower(s: string): (r: string)
    ensures |r| == |s|
    ensures forall i :: 0 <= i < |s| ==> r[i] == LowerChar(s[i])
  {
    seq(|s|, i requires 0 <= i < |s| => LowerChar(s[i]))
  }

  predicate EndsWith(s: string, suffix: string) {
    |suffix| <= |s| && s[|s| - |suffix|..] == suffix
  }

  predicate IsImageName(name: string) {
    var lower := Lower(name);
    EndsWith(lower, ".jpg") || EndsWith(lower, ".jpeg") || EndsWith(lower, ".png")
  }

  /** The names of a listing that pass the filter, in listing order. */
  function ImageNames(names: seq<string>): (r: seq<string>)
    ensures |r| <= |names|
    ensures forall x :: x in r <==> x in names && IsImageName(x)
    decreases |names|
  {
    if names == [] then []
    else
      var last := names[|names| - 1];
      var front := ImageNames(names[..|names| - 1]);
      assert forall x :: x in names <==> x in names[..|names| - 1] || x == last;
      if IsImageName(last) then front + [last] else front
  }

  /** Filtering one more entry of a listing appends it when it is an image name. */
  lemma ImageNamesExtend(names: seq<string>, i: nat)
    requires i < |names|
    ensures ImageNames(names[..i + 1]) == ImageNames(names[..i]) + if IsImageName(names[i]) then [names[i]] else []
  {
    assert names[..i + 1][..i] == names[..i];
  }

  /** The image names of an (unordered) listing. */
  function ImageSet(names: set<string>): set<string> {
    set x | x in names && IsImageName(x)
  }

  /** Filtering keeps the order: the image names of a sorted listing are sorted. */
  lemma {:induction false} ImageNamesSorted(names: seq<string>)
    requires StrictlySorted(names)
    ensures StrictlySorted(ImageNames(names))
    decreases |names|
  {
    if names != [] {
      var n := |names| - 1;
      var last := names[n];
      var front := names[..n];
      ImageNamesSorted(front);
      var f := ImageNames(front);
      var r := ImageNames(names);
      if IsImageName(last) {
        assert r == f + [last];
        forall i, j | 0 <= i < j < |r|
          ensures Below(r[i], r[j])
        {
          if j < |f| {
            assert r[i] == f[i] && r[j] == f[j];
          } else {
            assert f[i] in front;
            var k :| 0 <= k < n && front[k] == f[i];
            assert Below(names[k], names[n]);
          }
        }
      } else {
        assert r == f;
      }
    }
  }

  /** Sorting a listing and filtering it counts exactly the image names of the listing. */
  lemma SortedImageCount(names: set<string>)
    ensures |ImageNames(Sorted(names))| == |ImageSet(names)|
  {
    var r := ImageNames(Sorted(names));
    ImageNamesSorted(Sorted(names));
    SortedLength(r);
    assert Elements(r) == ImageSet(names);
  }

  lemma ImageNameIgnoresCase(name: string)
    ensures IsImageName(Lower(name)) == IsImageName(name)
  {
    assert Lower(Lower(name)) == Lower(name);
  }

  // ---------------------------------------------------------------------
  // `os.path.splitext` (POSIX flavour: separator '/', extension separator '.')

  /** The index of the last occurrence of `c` in `s`, or -1 (`str.rfind`). */
  function LastIndexOf(s: string, c: char): (r: int)
    ensures -1 <= r < |s|
    ensures r >= 0 ==> s[r] == c
    ensures forall i :: r < i < |s| ==> s[i] != c
    decreases |s|
  {
    if s == [] then -1
    else if s[|s| - 1] == c then |s| - 1
    else LastIndexOf(s[..|s| - 1], c)
  }

  /** Some character of `p[i..dot]` is not a '.' (the scan over the leading dots). */
  predicate NonDotFrom(p: string, i: int, dot: int)
    requires 0 <= i && dot <= |p|
    decreases dot - i
  {
    i < dot && (p[i] != '.' || NonDotFrom(p, i + 1, dot))
  }

  datatype Split = Split(base: string, ext: string)

  /**
   * The extension starts at the last '.' after the last '/', unless every
   * character between the last '/' and that '.' is itself a '.' (leading
   * dots of a name are not an extension separator).
   */
  function SplitExt(p: string): (r: Split)
    ensures r.base + r.ext == p
    ensures r.ext == [] || r.ext[0] == '.'
    ensures forall i :: 0 < i < |r.ext| ==> r.ext[i] != '.' && r.ext[i] != '/'
  {
    var sep := LastIndexOf(p, '/');
    var dot := LastIndexOf(p, '.');
    if dot > sep && NonDotFrom(p, sep + 1, dot) then Split(p[..dot], p[dot..]) else Split(p, "")
  }

  /** `NonDotFrom` says that some character of `p[i..dot]` is not a '.'. */
  lemma {:induction false} NonDotFromSome(p: string, i: int, dot: int)
    requires 0 <= i && dot <= |p|
    ensures NonDotFrom(p, i, dot) <==> exists j :: i <= j < dot && p[j] != '.'
    decreases dot - i
  {
    if i < dot {
      NonDotFromSome(p, i + 1, dot);
      if p[i] != '.' {
        assert i <= i < dot && p[i] != '.';
      } else if exists j :: i <= j < dot && p[j] != '.' {
        var j :| i <= j < dot && p[j] != '.';
        assert i + 1 <= j < dot && p[j] != '.';
      }
    }
  }

  /**
   * `splitext` finds an extension exactly when some character between the
   * last '/' and the last '.' is not a '.'; the extension is then everything
   * from that last '.' on.
   */
  lemma SplitExtWhen(p: string)
    ensures var sep, dot := LastIndexOf(p, '/'), LastIndexOf(p, '.');
      && (SplitExt(p).ext != [] <==> exists i :: sep < i < dot && p[i] != '.')
      && (SplitExt(p).ext != [] ==> SplitExt(p).ext == p[dot..])
  {
    var sep, dot := LastIndexOf(p, '/'), LastIndexOf(p, '.');
    if dot > sep {
      NonDotFromSome(p, sep + 1, dot);
    }
  }

  /**
   * For a name that passes the filter, the matched suffix starts at the last
   * '.', and `splitext` yields exactly that suffix, with its case preserved,
   * when a character other than '.' precedes it after the last '/'; otherwise
   * (a name such as `.jpg` or `..png`) it yields no extension.
   */
  lemma ImageExtension(name: string)
    requires IsImageName(name)
    ensures var ext := SplitExt(name).ext;
      ext == [] || Lower(ext) == ".jpg" || Lower(ext) == ".jpeg" || Lower(ext) == ".png"
    ensures var dot := LastIndexOf(name, '.');
      && 0 <= dot
      && (Lower(name[dot..]) == ".jpg" || Lower(name[dot..]) == ".jpeg" || Lower(name[dot..]) == ".png")
      && (SplitExt(name).ext == name[dot..] <==> exists i :: LastIndexOf(name, '/') < i < dot && name[i] != '.')
      && (SplitExt(name).ext != name[dot..] ==> SplitExt(name).ext == [])
  {
    var dot := LastIndexOf(name, '.');
    ImageSuffixAtLastDot(name);
    SplitExtWhen(name);
    assert SplitExt(name).ext == [] || SplitExt(name).ext == name[dot..];
  }

  /** The suffix the filter matched starts at the last '.' of the name. */
  lemma ImageSuffixAtLastDot(name: string)
    requires IsImageName(name)
    ensures var dot := LastIndexOf(name, '.');
      0 <= dot && (Lower(name[dot..]) == ".jpg" || Lower(name[dot..]) == ".jpeg" || Lower(name[dot..]) == ".png")
  {
    var suffix := if EndsWith(Lower(name), ".jpg") then ".jpg" else if EndsWith(Lower(name), ".jpeg") then ".jpeg" else ".png";
    ExtensionIsSuffix(name, suffix);
  }

  lemma ExtensionIsSuffix(name: string, suffix: string)
    requires EndsWith(Lower(name), suffix)
    requires |suffix| > 0 && suffix[0] == '.'
    requires forall i :: 0 < i < |suffix| ==> 'a' <= suffix[i] <= 'z'
    ensures LastIndexOf(name, '.') == |name| - |suffix|
    ensures Lower(name[|name| - |suffix|..]) == suffix
  {
    LowerSuffix(name, suffix);
    var k := |name| - |suffix|;
    assert LastIndexOf(name, '.') == k;
  }

  /** A name whose lower-cased form ends in `.` plus lower-case letters ends in a '.' and that many letters. */
  lemma LowerSuffix(name: string, suffix: string)
    requires EndsWith(Lower(name), suffix)
    requires |suffix| > 0 && suffix[0] == '.'
    requires forall i :: 0 < i < |suffix| ==> 'a' <= suffix[i] <= 'z'
    ensures var k := |name| - |suffix|;
      && name[k] == '.'
      && (forall i :: k < i < |name| ==> name[i] != '.' && name[i] != '/')
      && Lower(name[k..]) == suffix
  {
    var k := |name| - |suffix|;
    var lower := Lower(name);
    assert lower[k] == suffix[0];
    forall i | k < i < |name|
      ensures name[i] != '.' && name[i] != '/'
    {
      assert lower[i] == suffix[i - k];
    }
    assert Lower(name[k..]) == lower[k..];
  }

  /** The extension keeps its case. */
  lemma SplitExtKeepsCase()
    ensures SplitExt("A.JPG") == Split("A", ".JPG")
  {
    var p := "A.JPG";
    assert p[1] == '.' && forall i :: 2 <= i < |p| ==> p[i] != '.';
    assert forall i :: 0 <= i < |p| ==> p[i] != '/';
    assert NonDotFrom(p, 0, 1);
  }

  /** A name whose only dot leads it has no extension. */
  lemma SplitExtLeadingDot()
    ensures SplitExt(".jpg") == Split(".jpg", "")
  {
    var p := ".jpg";
    assert p[0] == '.' && forall i :: 1 <= i < |p| ==> p[i] != '.';
    assert forall i :: 0 <= i < |p| ==> p[i] != '/';
    assert !NonDotFrom(p, 0, 0);
  }

  /** Only the last dot separates the extension. */
  lemma SplitExtLastDot()
    ensures SplitExt("x.tar.png") == Split("x.tar", ".png")
  {
    var p := "x.tar.png";
    assert p[5] == '.' && forall i :: 6 <= i < |p| ==> p[i] != '.';
    assert forall i :: 0 <= i < |p| ==> p[i] != '/';
    assert NonDotFrom(p, 0, 5);
  }

  // ---------------------------------------------------------------------
  // `f"{counter:06d}"`

  function DigitChar(d: nat): char
    requires d < 10
  {
    ('0' as int + d) as char
  }

  predicate IsDigit(c: char) {
    '0' <= c <= '9'
  }

  predicate AllDigits(s: string) {
    forall i :: 0 <= i < |s| ==> IsDigit(s[i])
  }

  /** The decimal numeral of `n`, without leading zeros. */
  function Decimal(n: nat): (s: string)
    ensures 1 <= |s| && AllDigits(s)
    ensures |s| == 1 <==> n < 10
    ensures n > 0 ==> s[0] != '0'
    decreases n
  {
    if n < 10 then [DigitChar(n)] else Decimal(n / 10) + [DigitChar(n % 10)]
  }

  function Zeros(n: nat): (s: string)
    ensures |s| == n && forall i :: 0 <= i < n ==> s[i] == '0'
  {
    seq(n, _ => '0')
  }

  /** The counter padded on the left with '0' to at least six digits. */
  function Format06(k: nat): (s: string)
    ensures AllDigits(s)
    ensures |s| >= 6 && |s| >= |Decimal(k)|
    ensures |s| > 6 ==> s[0] != '0'
    ensures s[|s| - |Decimal(k)|..] == Decimal(k)
  {
    var d := Decimal(k);
    if |d| < 6 then Zeros(6 - |d|) + d else d
  }

  /** The value of a string of decimal digits (`int(s)`). */
  function Parse(s: string): nat
    requires AllDigits(s)
    decreases |s|
  {
    if s == [] then 0 else Parse(s[..|s| - 1]) * 10 + (s[|s| - 1] as int - '0' as int)
  }

  lemma {:induction false} ParseDecimal(n: nat)
    ensures Parse(Decimal(n)) == n
    decreases n
  {
    if n >= 10 {
      var d := Decimal(n);
      assert d[..|d| - 1] == Decimal(n / 10);
      ParseDecimal(n / 10);
    }
  }

  lemma {:induction false} ParseZeros(n: nat)
    ensures Parse(Zeros(n)) == 0
    decreases n
  {
    if n > 0 {
      assert Zeros(n)[..n - 1] == Zeros(n - 1);
      ParseZeros(n - 1);
    }
  }

  lemma {:induction false} ParseLeadingZeros(n: nat, s: string)
    requires AllDigits(s)
    ensures AllDigits(Zeros(n) + s) && Parse(Zeros(n) + s) == Parse(s)
    decreases |s|
  {
    if s == [] {
      assert Zeros(n) + s == Zeros(n);
      ParseZeros(n);
    } else {
      var t := Zeros(n) + s;
      var s' := s[..|s| - 1];
      assert t[..|t| - 1] == Zeros(n) + s';
      ParseLeadingZeros(n, s');
    }
  }

  /** Reading the new base name back as a number gives the counter. */
  lemma ParseFormat06(k: nat)
    ensures Parse(Format06(k)) == k
  {
    var d := Decimal(k);
    ParseDecimal(k);
    if |d| < 6 {
      ParseLeadingZeros(6 - |d|, d);
    }
  }

  lemma Format06Injective(j: nat, k: nat)
    requires Format06(j) == Format06(k)
    ensures j == k
  {
    ParseFormat06(j);
    ParseFormat06(k);
  }

  function Pow10(d: nat): nat {
    if d == 0 then 1 else 10 * Pow10(d - 1)
  }

  lemma {:induction false} DecimalLength(n: nat, d: nat)
    requires 1 <= d && n < Pow10(d)
    ensures |Decimal(n)| <= d
    decreases d
  {
    if n >= 10 {
      DecimalLength(n / 10, d - 1);
    }
  }

  lemma {:induction false} DecimalLengthAbove(n: nat, d: nat)
    requires n >= Pow10(d)
    ensures |Decimal(n)| > d
    decreases d
  {
    if d > 0 {
      DecimalLengthAbove(n / 10, d - 1);
    }
  }

  /** The numeral of the counter, left-padded with '0' to the length max(6, number of digits). */
  lemma Format06Padding(k: nat)
    ensures |Format06(k)| == if |Decimal(k)| < 6 then 6 else |Decimal(k)|
    ensures forall i :: 0 <= i < |Format06(k)| - |Decimal(k)| ==> Format06(k)[i] == '0'
    ensures Format06(k)[|Format06(k)| - |Decimal(k)|..] == Decimal(k)
  {
  }

  /** Counters up to 999999 give exactly six characters; larger ones are not truncated. */
  lemma Format06Width(k: nat)
    ensures k < 1000000 ==> |Format06(k)| == 6
    ensures k >= 1000000 ==> |Format06(k)| > 6
  {
    assert Pow10(6) == 1000000;
    if k < 1000000 {
      DecimalLength(k, 6);
    } else {
      DecimalLengthAbove(k, 6);
    }
  }

  lemma Format06Examples()
    ensures Format06(1) == "000001"
    ensures Format06(1234567) == "1234567"
  {
    assert Decimal(1) == "1";
    assert Zeros(5) == "00000";
    assert Decimal(12) == "12";
    assert Decimal(123) == "123";
    assert Decimal(1234) == "1234";
    assert Decimal(12345) == "12345";
    assert Decimal(123456) == "123456";
    assert Decimal(1234567) == "1234567";
  }

  /** The first image `A.JPG` is renamed `000001.JPG`: the extension keeps its case. */
  lemma FirstImageName()
    ensures Format06(1) + SplitExt("A.JPG").ext == "000001.JPG"
  {
    SplitExtKeepsCase();
    Format06Examples();
    LiteralJoin(Format06(1), SplitExt("A.JPG").ext);
  }

  lemma LiteralJoin(a: string, b: string)
    requires a == "000001" && b == ".JPG"
    ensures a + b == "000001.JPG"
  { }

  /** The number of decimal digits a string starts with. */
  function DigitRun(s: string): (n: nat)
    ensures n <= |s| && AllDigits(s[..n])
    ensures n < |s| ==> !IsDigit(s[n])
    decreases |s|
  {
    if s == [] || !IsDigit(s[0]) then 0 else 1 + DigitRun(s[1..])
  }

  lemma {:induction false} DigitRunOf(a: string, e: string)
    requires AllDigits(a)
    requires e == [] || e[0] == '.'
    ensures DigitRun(a + e) == |a|
    decreases |a|
  {
    if a != [] {
      assert (a + e)[1..] == a[1..] + e;
      DigitRunOf(a[1..], e);
    }
  }

  /**
   * A new file name is the counter's name followed by an extension that is
   * empty or starts with '.'; two such names are equal only for the same counter.
   */
  lemma NewNamesDistinct(j: nat, e1: string, k: nat, e2: string)
    requires e1 == [] || e1[0] == '.'
    requires e2 == [] || e2[0] == '.'
    requires Format06(j) + e1 == Format06(k) + e2
    ensures j == k
  {
    var a, b := Format06(j), Format06(k);
    var s := a + e1;
    DigitRunOf(a, e1);
    DigitRunOf(b, e2);
    assert a == s[..|a|];
    assert b == s[..|b|];
    Format06Injective(j, k);
  }
}
