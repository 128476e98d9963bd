/**
  How a file name is taken apart and how its new name is put together:
  `str::split_once('.')`, the `{extension}` rebuilt with its dot, the
  decimal `{i}` of the sequential mode and the `format!` strings of both
  modes.
 */
module Naming {

  datatype Option<T> = None | Some(value: T)

  /**
    `s.split_once(c)`: the text before and after the first `c`, or `None`
    when `s` has no `c`.
   */
  function SplitOnce(s: string, c: char): (r: Option<(string, string)>)
    ensures r.None? <==> c !in s
    ensures r.Some? ==> r.value.0 + [c] + r.value.1 == s && c !in r.value.0
  {
    if s == [] then None
    else if s[0] == c then Some(([], s[1..]))
    else
      match SplitOnce(s[1..], c)
      case None => None
      case Some((before, after)) =>
        assert s == [s[0]] + s[1..];
        Some(([s[0]] + before, after))
  }

  /** An extension as the program builds it: empty, or starting with the dot. */
  predicate IsExtension(extension: string)
  {
    extension == [] || extension[0] == '.'
  }

  /**
    The `(name, extension)` pair of a file name: split at the first `.`,
    the extension keeping its dot; no `.` gives the whole name and an empty
    extension.
   */
  function SplitName(filename: string): (r: (string, string))
    ensures r.0 + r.1 == filename
    ensures '.' !in r.0
    ensures IsExtension(r.1)
    ensures r.1 == [] <==> '.' !in filename
  {
    match SplitOnce(filename, '.')
    case Some((name, extension)) => (name, "." + extension)
    case None => (filename, "")
  }

  /** The extension half of the split. */
  function Extension(filename: string): string
  {
    SplitName(filename).1
  }

  /**
    The extension of a file name is a dot-led ending of it, empty exactly
    when the name has no dot.
   */
  lemma ExtensionIsEnding(filename: string)
    ensures IsExtension(Extension(filename))
    ensures |Extension(filename)| <= |filename|
    ensures filename[|filename| - |Extension(filename)|..] == Extension(filename)
    ensures Extension(filename) == [] <==> '.' !in filename
  {
    var (name, e) := SplitName(filename);
    assert filename[|name|..] == e;
  }

  /**
    The split is the only way to write a file name as a dot-free name
    followed by an extension.
   */
  lemma SplitNameUnique(filename: string, name: string, extension: string)
    requires name + extension == filename
    requires '.' !in name && IsExtension(extension)
    ensures SplitName(filename) == (name, extension)
  {
    var (n, e) := SplitName(filename);
    assert forall k :: 0 <= k < |n| ==> filename[k] == n[k] != '.';
    assert forall k :: 0 <= k < |name| ==> filename[k] == name[k] != '.';
    assert |n| < |filename| ==> filename[|n|] == e[0] == '.';
    assert |name| < |filename| ==> filename[|name|] == extension[0] == '.';
    assert n == filename[..|n|] == name;
  }

  predicate IsDigit(ch: char)
  {
    '0' <= ch <= '9'
  }

  function DigitChar(d: nat): (ch: char)
    requires d < 10
    ensures IsDigit(ch)
  {
    ('0' as int + d) as char
  }

  function DigitValue(ch: char): (d: nat)
    requires IsDigit(ch)
    ensures d < 10 && DigitChar(d) == ch
  {
    ch as int - '0' as int
  }

  /**
    `{i}` for an index: its decimal digits, most significant first, with no
    sign and no leading zero.
   */
  function Decimal(n: nat): (s: string)
    ensures |s| >= 1
    ensures forall k :: 0 <= k < |s| ==> IsDigit(s[k])
    ensures s[0] == '0' ==> s == "0"
  {
    if n < 10 then [DigitChar(n)] else Decimal(n / 10) + [DigitChar(n % 10)]
  }

  /** The value of a string of decimal digits. */
  function ParseDecimal(s: string): nat
    requires forall k :: 0 <= k < |s| ==> IsDigit(s[k])
  {
    if s == [] then 0 else ParseDecimal(s[..|s| - 1]) * 10 + DigitValue(s[|s| - 1])
  }

  /** Reading back the digits gives the index. */
  lemma {:induction false} DecimalRoundTrip(n: nat)
    ensures ParseDecimal(Decimal(n)) == n
  {
    var s := Decimal(n);
    if n >= 10 {
      DecimalRoundTrip(n / 10);
      assert s[..|s| - 1] == Decimal(n / 10);
      assert DigitValue(DigitChar(n % 10)) == n % 10;
    }
  }

  /** Distinct indices have distinct decimal forms. */
  lemma DecimalInjective(i: nat, j: nat)
    requires Decimal(i) == Decimal(j)
    ensures i == j
  {
    DecimalRoundTrip(i);
    DecimalRoundTrip(j);
  }

  /** `{new_name}{i}{extension}`: the target of the sequential mode. */
  function SequentialTarget(prefix: string, i: nat, extension: string): string
  {
    prefix + Decimal(i) + extension
  }

  /**
    A sequential target starts with the prefix and ends with the extension,
    and what lies between is one or more decimal digits.
   */
  lemma SequentialTargetParts(prefix: string, i: nat, extension: string)
    ensures var t := SequentialTarget(prefix, i, extension);
            && |t| > |prefix| + |extension|
            && t[..|prefix|] == prefix && t[|t| - |extension|..] == extension
            && forall k :: |prefix| <= k < |t| - |extension| ==> IsDigit(t[k])
  {
    var t := SequentialTarget(prefix, i, extension);
    assert forall k :: |prefix| <= k < |t| - |extension| ==> t[k] == Decimal(i)[k - |prefix|];
  }

  /** `{new_name} {newdate}{extension}`: the target of the datetime mode. */
  function DatetimeTarget(prefix: string, stamp: string, extension: string): string
  {
    prefix + " " + stamp + extension
  }

  /**
    A datetime target is the prefix, a space, the date text and the
    extension, in that order, and each part can be read back from it.
   */
  lemma DatetimeTargetParts(prefix: string, stamp: string, extension: string)
    ensures var t := DatetimeTarget(prefix, stamp, extension);
            && |t| == |prefix| + 1 + |stamp| + |extension|
            && t[..|prefix|] == prefix && t[|prefix|] == ' '
            && t[|prefix| + 1..|t| - |extension|] == stamp && t[|t| - |extension|..] == extension
  {
  }

  /** `{dir_path}/{file}`. */
  function JoinPath(dir: string, file: string): string
  {
    dir + "/" + file
  }

  /** A joined path is the directory, a slash, then the file name. */
  lemma JoinPathParts(dir: string, file: string)
    ensures var p := JoinPath(dir, file);
            && |p| == |dir| + 1 + |file|
            && p[..|dir|] == dir && p[|dir|] == '/' && p[|dir| + 1..] == file
  {
  }

  /** Paths in the same directory are equal only for equal file names. */
  lemma JoinPathInjective(dir: string, a: string, b: string)
    ensures JoinPath(dir, a) == JoinPath(dir, b) ==> a == b
  {
    if JoinPath(dir, a) == JoinPath(dir, b) {
      assert a == JoinPath(dir, a)[|dir| + 1..];
      assert b == JoinPath(dir, b)[|dir| + 1..];
    }
  }

  /**
    Sequential targets with the same prefix determine their index and their
    extension: two files given different indices never get the same name,
    whatever their extensions, because the digits stop where the extension's
    dot (or the end) begins.
   */
  lemma SequentialTargetInjective(prefix: string, i: nat, j: nat, e1: string, e2: string)
    requires IsExtension(e1) && IsExtension(e2)
    ensures SequentialTarget(prefix, i, e1) == SequentialTarget(prefix, j, e2) ==> i == j && e1 == e2
  {
    if SequentialTarget(prefix, i, e1) == SequentialTarget(prefix, j, e2) {
      var t := SequentialTarget(prefix, i, e1);
      var di, dj := Decimal(i), Decimal(j);
      assert t[|prefix|..] == di + e1 == dj + e2;
      SplitNameUnique(di + e1, di, e1);
      SplitNameUnique(di + e1, dj, e2);
      DecimalInjective(i, j);
    }
  }

  /**
    A sequentially renamed file keeps its extension: splitting the new name
    gives back the extension of the old one, provided the prefix has no dot.
   */
  lemma SequentialTargetKeepsExtension(prefix: string, i: nat, filename: string)
    requires '.' !in prefix
    ensures Extension(SequentialTarget(prefix, i, Extension(filename))) == Extension(filename)
  {
    var e := Extension(filename);
    var base := prefix + Decimal(i);
    assert forall k :: 0 <= k < |base| ==> base[k] != '.' by {
      forall k | 0 <= k < |base| ensures base[k] != '.' {
        if k < |prefix| { assert base[k] == prefix[k]; }
        else { assert base[k] == Decimal(i)[k - |prefix|]; }
      }
    }
    SplitNameUnique(base + e, base, e);
  }

  /**
    A file renamed by date keeps its extension, provided neither the prefix
    nor the date text contains a dot (the program's date pattern has none).
   */
  lemma DatetimeTargetKeepsExtension(prefix: string, stamp: string, filename: string)
    requires '.' !in prefix && '.' !in stamp
    ensures Extension(DatetimeTarget(prefix, stamp, Extension(filename))) == Extension(filename)
  {
    var e := Extension(filename);
    var base := prefix + " " + stamp;
    assert forall k :: 0 <= k < |base| ==> base[k] != '.' by {
      forall k | 0 <= k < |base| ensures base[k] != '.' {
        if k < |prefix| { assert base[k] == prefix[k]; }
        else if k == |prefix| { assert base[k] == ' '; }
        else { assert base[k] == stamp[k - |prefix| - 1]; }
      }
    }
    SplitNameUnique(base + e, base, e);
  }
}
