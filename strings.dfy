/**
 * The parts of Python's string, `os.path` and `pathlib` behaviour that the game's
 * core relies on: `str.lower`, `str.strip`, `str.isdigit`, the `in` substring test,
 * `str.split` and `str.replace` on one character, `os.path.basename`,
 * `os.path.splitext`, `PurePath.suffix`, and the ordering `sorted` uses on strings.
 */
module Strings {

  /** Python's `str.isspace()` on one character (ASCII controls, the Unicode spaces). */
  predicate IsSpace(c: char) {
    c == ' ' || '\t' <= c <= '\r' || '\U{1C}' <= c <= '\U{1F}'
    || c == '\U{85}' || c == '\U{A0}' || c == '\U{1680}'
    || '\U{2000}' <= c <= '\U{200A}' || c == '\U{2028}' || c == '\U{2029}'
    || c == '\U{202F}' || c == '\U{205F}' || c == '\U{3000}'
  }

  /** `str.isdigit()` on one ASCII character. */
  predicate IsDigit(c: char) {
    '0' <= c <= '9'
  }

  predicate IsUpper(c: char) {
    'A' <= c <= 'Z'
  }

  /** `str.lower()` on one character, for the ASCII letters. */
  function LowerChar(c: char): (d: char)
    ensures !IsUpper(d)
    ensures IsUpper(c) ==> d as int == c as int + 32
    ensures !IsUpper(c) ==> d == c
  {
    if IsUpper(c) then (c as int + 32) as char else c
  }

  /** No ASCII upper-case letter occurs in `s`. */
  predicate IsLowered(s: string) {
    forall i :: 0 <= i < |s| ==> !IsUpper(s[i])
  }

  /** `s.lower()`: every character lowered, the length kept. */
  function Lower(s: string): (r: string)
    ensures |r| == |s| && IsLowered(r)
    ensures forall i :: 0 <= i < |s| ==> r[i] == LowerChar(s[i])
  {
    seq(|s|, i requires 0 <= i < |s| => LowerChar(s[i]))
  }

  /** Leading whitespace removed (the first half of `str.strip()`). */
  function StripLeft(s: string): (r: string)
    ensures |r| <= |s|
    ensures forall i :: 0 <= i < |s| - |r| ==> IsSpace(s[i])
    ensures r == [] || !IsSpace(r[0])
  {
    if |s| > 0 && IsSpace(s[0]) then StripLeft(s[1..]) else s
  }

  /** Trailing whitespace removed (the second half of `str.strip()`). */
  function StripRight(s: string): (r: string)
    ensures |r| <= |s|
    ensures forall i :: |r| <= i < |s| ==> IsSpace(s[i])
    ensures r == [] || !IsSpace(r[|r| - 1])
  {
    if |s| > 0 && IsSpace(s[|s| - 1]) then StripRight(s[..|s| - 1]) else s
  }

  /** `s.strip()`: a contiguous piece of `s` (`StripKeepsMiddle`) that neither starts
      nor ends with whitespace, empty exactly when `s` is all whitespace. */
  function Strip(s: string): (r: string)
    ensures |r| <= |s|
    ensures r == [] || (!IsSpace(r[0]) && !IsSpace(r[|r| - 1]))
    ensures r == [] <==> forall i :: 0 <= i < |s| ==> IsSpace(s[i])
  {
    var l := StripLeft(s);
    var r := StripRight(l);
    StripLeftIsSuffix(s);
    StripRightIsPrefix(l);
    assert r == [] ==> l == [];
    r
  }

  /** What `strip()` keeps is a piece of its argument with only whitespace around it. */
  lemma StripKeepsMiddle(s: string)
    ensures exists a :: StrippedAt(s, Strip(s), a)
  {
    var l := StripLeft(s);
    var r := StripRight(l);
    StripLeftIsSuffix(s);
    StripRightIsPrefix(l);
    var a := |s| - |l|;
    assert r == Strip(s);
    assert s[a..a + |r|] == r by {
      assert l[..|r|] == r;
      assert s[a..] == l;
    }
    forall i | a + |r| <= i < |s| ensures IsSpace(s[i]) {
      assert s[i] == l[i - a];
    }
    assert StrippedAt(s, r, a);
  }

  /** `r` is the piece of `s` starting at `a`, and everything of `s` around it is
      whitespace. */
  predicate StrippedAt(s: string, r: string, a: int) {
    && 0 <= a <= |s| - |r|
    && r == s[a..a + |r|]
    && (forall i :: 0 <= i < a ==> IsSpace(s[i]))
    && (forall i :: a + |r| <= i < |s| ==> IsSpace(s[i]))
  }

  /** What `StripLeft` keeps is a suffix of its argument. */
  lemma {:induction false} StripLeftIsSuffix(s: string)
    ensures StripLeft(s) == s[|s| - |StripLeft(s)|..]
    decreases |s|
  {
    if |s| > 0 && IsSpace(s[0]) {
      StripLeftIsSuffix(s[1..]);
    }
  }

  /** What `StripRight` keeps is a prefix of its argument. */
  lemma {:induction false} StripRightIsPrefix(s: string)
    ensures StripRight(s) == s[..|StripRight(s)|]
    decreases |s|
  {
    if |s| > 0 && IsSpace(s[|s| - 1]) {
      StripRightIsPrefix(s[..|s| - 1]);
    }
  }

  /** `needle in hay` for two strings. */
  function Contains(hay: string, needle: string): bool
    decreases |hay|
  {
    needle <= hay || (|hay| > 0 && Contains(hay[1..], needle))
  }

  /** `needle` occurs in `hay` starting at index `i`. */
  predicate OccursAt(hay: string, needle: string, i: int) {
    0 <= i && i + |needle| <= |hay| && hay[i..i + |needle|] == needle
  }

  /** An occurrence at any position makes the substring test succeed. */
  lemma {:induction false} OccursContains(hay: string, needle: string, i: int)
    requires OccursAt(hay, needle, i)
    ensures Contains(hay, needle)
    decreases i
  {
    if i == 0 {
      assert hay[..|needle|] == needle;
    } else {
      assert hay[1..][i - 1..i - 1 + |needle|] == hay[i..i + |needle|];
      OccursContains(hay[1..], needle, i - 1);
    }
  }

  /** A successful substring test names a position where the needle occurs. */
  lemma {:induction false} ContainsOccurs(hay: string, needle: string) returns (i: int)
    requires Contains(hay, needle)
    ensures OccursAt(hay, needle, i)
    decreases |hay|
  {
    if needle <= hay {
      i := 0;
    } else {
      var j := ContainsOccurs(hay[1..], needle);
      assert hay[1..][j..j + |needle|] == hay[j + 1..j + 1 + |needle|];
      i := j + 1;
    }
  }

  /** The substring test holds exactly when the needle occurs at some position. */
  lemma ContainsIffOccurs(hay: string, needle: string)
    ensures Contains(hay, needle) <==> exists i :: OccursAt(hay, needle, i)
  {
    if Contains(hay, needle) {
      var i := ContainsOccurs(hay, needle);
    }
    forall i | OccursAt(hay, needle, i) ensures Contains(hay, needle) {
      OccursContains(hay, needle, i);
    }
  }

  /** Every string occurs in itself. */
  lemma ContainsSelf(s: string)
    ensures Contains(s, s)
  {
  }

  /** `s.split(sep)`: the pieces between the separators, always at least one. */
  function Split(s: string, sep: char): (parts: seq<string>)
    ensures |parts| >= 1
    ensures forall k :: 0 <= k < |parts| ==> sep !in parts[k]
    decreases |s|
  {
    if |s| == 0 then [""]
    else
      var rest := Split(s[1..], sep);
      if s[0] == sep then [""] + rest
      else [[s[0]] + rest[0]] + rest[1..]
  }

  /** `"sep".join(parts)`. */
  function Join(parts: seq<string>, sep: char): string
    requires |parts| >= 1
  {
    if |parts| == 1 then parts[0] else parts[0] + [sep] + Join(parts[1..], sep)
  }

  /** Splitting loses nothing: joining the pieces gives the string back. */
  lemma {:induction false} SplitJoin(s: string, sep: char)
    ensures Join(Split(s, sep), sep) == s
    decreases |s|
  {
    if |s| > 0 {
      SplitJoin(s[1..], sep);
      var rest := Split(s[1..], sep);
      if s[0] != sep && |rest| > 1 {
        assert Split(s, sep)[1..] == rest[1..];
      }
    }
  }

  /** There is more than one piece exactly when the separator occurs. */
  lemma {:induction false} SplitSeveralIff(s: string, sep: char)
    ensures |Split(s, sep)| >= 2 <==> sep in s
    decreases |s|
  {
    if |s| > 0 {
      SplitSeveralIff(s[1..], sep);
      assert s == [s[0]] + s[1..];
    }
  }

  /** `s.replace(from, to)` for one-character `from` and `to`. */
  function ReplaceChar(s: string, from: char, to: char): (r: string)
    ensures |r| == |s|
    ensures from != to ==> from !in r
    ensures forall i :: 0 <= i < |s| ==> r[i] == if s[i] == from then to else s[i]
  {
    seq(|s|, i requires 0 <= i < |s| => if s[i] == from then to else s[i])
  }

  /** `''.join(c for c in s if not c.isdigit())`: the non-digits of `s`, in order. */
  function RemoveDigits(s: string): (r: string)
    ensures |r| <= |s|
    ensures forall j :: 0 <= j < |r| ==> !IsDigit(r[j])
    ensures r == [] <==> forall i :: 0 <= i < |s| ==> IsDigit(s[i])
    ensures (forall i :: 0 <= i < |s| ==> !IsDigit(s[i])) ==> r == s
  {
    if |s| == 0 then ""
    else if IsDigit(s[0]) then RemoveDigits(s[1..])
    else [s[0]] + RemoveDigits(s[1..])
  }

  /** The digit filter of a concatenation is the concatenation of the filtered parts;
      with `RemoveDigitsChar` this fixes the filter on every string. */
  lemma {:induction false} RemoveDigitsAppend(a: string, b: string)
    ensures RemoveDigits(a + b) == RemoveDigits(a) + RemoveDigits(b)
    decreases |a|
  {
    if |a| > 0 {
      assert (a + b)[1..] == a[1..] + b;
      RemoveDigitsAppend(a[1..], b);
    } else {
      assert a + b == b;
    }
  }

  /** On one character the digit filter drops a digit and keeps anything else. */
  lemma RemoveDigitsChar(c: char)
    ensures RemoveDigits([c]) == if IsDigit(c) then [] else [c]
  {
    assert [c][1..] == [];
  }

  /** The index of the last `c` in `s`, or -1 (`str.rfind`). */
  function LastIndexOf(s: string, c: char): (k: int)
    ensures -1 <= k < |s|
    ensures k >= 0 ==> s[k] == c
    ensures forall j :: k < j < |s| ==> s[j] != c
  {
    if |s| == 0 then -1
    else if s[|s| - 1] == c then |s| - 1
    else LastIndexOf(s[..|s| - 1], c)
  }

  /** A character that does not occur has no last index. */
  lemma LastIndexOfAbsent(s: string, c: char)
    requires forall i :: 0 <= i < |s| ==> s[i] != c
    ensures LastIndexOf(s, c) == -1
  {
  }

  /** The last `c` of `a + [c] + b` is the one after `a` when `b` has none. */
  lemma LastIndexOfLastOccurrence(a: string, c: char, b: string)
    requires forall i :: 0 <= i < |b| ==> b[i] != c
    ensures LastIndexOf(a + [c] + b, c) == |a|
  {
    assert (a + [c] + b)[|a|] == c;
  }

  /** `os.path.basename(p)` on POSIX: what follows the last `/` (`BasenameAfterSlash`). */
  function Basename(p: string): (b: string)
    ensures forall j :: 0 <= j < |b| ==> b[j] != '/'
    ensures |b| <= |p| && b == p[|p| - |b|..]
    ensures (forall j :: 0 <= j < |p| ==> p[j] != '/') ==> b == p
  {
    p[LastIndexOf(p, '/') + 1..]
  }

  /** The base name is everything after the last `/`: unless it is the whole path, a
      `/` comes right before it. */
  lemma BasenameAfterSlash(p: string)
    ensures |Basename(p)| < |p| ==> p[|p| - |Basename(p)| - 1] == '/'
  {
  }

  /** Worked example: a path in a folder is looked up by its file name. */
  lemma BasenameExample()
    ensures Basename("dir/cat.png") == "cat.png"
  {
    LastIndexOfLastOccurrence("dir", '/', "cat.png");
    assert "dir" + ['/'] + "cat.png" == "dir/cat.png";
  }

  /** Taking the base name twice is taking it once. */
  lemma BasenameIdempotent(p: string)
    ensures Basename(Basename(p)) == Basename(p)
  {
  }

  /** The first half of `os.path.splitext(p)` on POSIX: the last dot of the final
      component starts the extension unless only dots come before it there. */
  function SplitExtRoot(p: string): (root: string)
    ensures root <= p
  {
    var sep := LastIndexOf(p, '/');
    var dot := LastIndexOf(p, '.');
    if dot > sep && exists j :: sep + 1 <= j < dot && p[j] != '.' then p[..dot] else p
  }

  /** Where `splitext` cuts: when it cuts at all, at a dot of the last component after
      which no dot follows, with a character other than a dot before it in that
      component; it leaves `p` whole exactly when that component has no such dot. */
  lemma SplitExtRootLastDot(p: string)
    ensures var root, start := SplitExtRoot(p), LastIndexOf(p, '/') + 1;
      root != p ==> && start < |root|
                    && p[|root|] == '.'
                    && (forall j :: |root| < j < |p| ==> p[j] != '.')
                    && (exists j :: start <= j < |root| && p[j] != '.')
    ensures var root, start := SplitExtRoot(p), LastIndexOf(p, '/') + 1;
      root == p ==> forall i, j :: start <= j < i < |p| && p[i] == '.' ==> p[j] == '.'
  {
  }

  /** `PurePath(name).suffix` (as in Python 3.12) for a name without `/`: the part from
      the last dot, unless the dot is the first or the last character. */
  function PathSuffix(name: string): (suffix: string)
    ensures suffix == [] || (suffix[0] == '.' && 2 <= |suffix| < |name|)
    ensures suffix != [] ==> suffix == name[|name| - |suffix|..] && '.' !in suffix[1..]
    ensures suffix != [] <==> 0 < LastIndexOf(name, '.') < |name| - 1
  {
    var i := LastIndexOf(name, '.');
    if 0 < i < |name| - 1 then name[i..] else ""
  }

  /** Python's `<` on strings: lexicographic order on code points. */
  predicate LexLess(a: string, b: string)
    decreases |a|
  {
    if |a| == 0 then |b| > 0
    else if |b| == 0 then false
    else if a[0] != b[0] then a[0] < b[0]
    else LexLess(a[1..], b[1..])
  }

  /** The order is asymmetric. */
  lemma {:induction false} LexLessAsymmetric(a: string, b: string)
    requires LexLess(a, b)
    ensures !LexLess(b, a)
    decreases |a|
  {
    if |a| > 0 && |b| > 0 && a[0] == b[0] {
      LexLessAsymmetric(a[1..], b[1..]);
    }
  }

  /** The order is total: of two different strings one is below the other. */
  lemma {:induction false} LexLessTotal(a: string, b: string)
    requires a != b
    ensures LexLess(a, b) || LexLess(b, a)
    decreases |a|
  {
    if |a| > 0 && |b| > 0 && a[0] == b[0] {
      assert a == [a[0]] + a[1..] && b == [b[0]] + b[1..];
      LexLessTotal(a[1..], b[1..]);
    }
  }

  /** A needle whose first character does not occur in the haystack is not in it. */
  lemma {:induction false} NotContainsFirstChar(hay: string, needle: string)
    requires needle != [] && forall i :: 0 <= i < |hay| ==> hay[i] != needle[0]
    ensures !Contains(hay, needle)
    decreases |hay|
  {
    assert !(needle <= hay) by {
      if |hay| > 0 {
        assert hay[0] != needle[0];
      }
    }
    if |hay| > 0 {
      NotContainsFirstChar(hay[1..], needle);
    }
  }

  /** Without the separator there is one piece, the whole string. */
  lemma {:induction false} SplitWithoutSeparator(s: string, sep: char)
    requires forall i :: 0 <= i < |s| ==> s[i] != sep
    ensures Split(s, sep) == [s]
    decreases |s|
  {
    if |s| > 0 {
      SplitWithoutSeparator(s[1..], sep);
      assert [s[0]] + s[1..] == s;
    }
  }

  /** The first piece ends at the first separator. */
  lemma {:induction false} SplitAtFirstSeparator(a: string, b: string, sep: char)
    requires forall i :: 0 <= i < |a| ==> a[i] != sep
    ensures Split(a + [sep] + b, sep) == [a] + Split(b, sep)
    decreases |a|
  {
    if |a| == 0 {
      assert a + [sep] + b == [sep] + b;
      assert ([sep] + b)[1..] == b;
    } else {
      SplitAtFirstSeparator(a[1..], b, sep);
      assert (a + [sep] + b)[1..] == a[1..] + [sep] + b;
      assert [a[0]] + a[1..] == a;
    }
  }

  /** A string without upper-case letters lower-cases to itself. */
  lemma LowerOfLowered(s: string)
    requires IsLowered(s)
    ensures Lower(s) == s
  {
  }

  /** A string without surrounding whitespace strips to itself. */
  lemma StripOfTrimmed(s: string)
    requires s == [] || (!IsSpace(s[0]) && !IsSpace(s[|s| - 1]))
    ensures Strip(s) == s
  {
  }

  // Facts about lower-casing and stripping used by the answer check.

  lemma LowerIdempotent(s: string)
    ensures Lower(Lower(s)) == Lower(s)
  {
  }

  lemma {:induction false} LowerStripLeft(s: string)
    ensures Lower(StripLeft(s)) == StripLeft(Lower(s))
    decreases |s|
  {
    if |s| > 0 {
      var t := Lower(s);
      assert t[0] == LowerChar(s[0]);
      assert IsSpace(t[0]) == IsSpace(s[0]);
      if IsSpace(s[0]) {
        assert t[1..] == Lower(s[1..]);
        assert StripLeft(t) == StripLeft(t[1..]);
        LowerStripLeft(s[1..]);
      }
    }
  }

  lemma {:induction false} LowerStripRight(s: string)
    ensures Lower(StripRight(s)) == StripRight(Lower(s))
    decreases |s|
  {
    var t := Lower(s);
    if |s| > 0 && IsSpace(s[|s| - 1]) {
      var last := |s| - 1;
      assert IsSpace(t[last]);
      assert t[..last] == Lower(s[..last]);
      calc {
        Lower(StripRight(s));
        Lower(StripRight(s[..last]));
        { LowerStripRight(s[..last]); }
        StripRight(Lower(s[..last]));
        StripRight(t[..last]);
        StripRight(t);
      }
    } else if |s| > 0 {
      assert !IsSpace(t[|s| - 1]);
    }
  }

  /** Lower-casing and stripping commute, since no whitespace character is a letter. */
  lemma LowerStrip(s: string)
    ensures Lower(Strip(s)) == Strip(Lower(s))
  {
    LowerStripLeft(s);
    LowerStripRight(StripLeft(s));
  }

  /** Stripping twice is stripping once. */
  lemma StripIdempotent(s: string)
    ensures Strip(Strip(s)) == Strip(s)
  {
    var r := Strip(s);
    assert StripLeft(r) == r;
    assert StripRight(r) == r;
  }
}
