/**
 * String helpers shared by the dialogs: the lower-casing "contains" filter used by the shortcut
 * table and the info viewer, the UTF-16 code-unit order Qt uses to sort and iterate keys, and
 * the path helpers standing for QDir::separator() and QFileInfo::fileName().
 */
module Text {

  type Path = string

  /** The separator QDir::separator() yields on the platforms this model follows. */
  const Separator: char := '/'

  /**
   * QString::toLower restricted to the capitals of Basic Latin, Latin-1, Greek and Cyrillic
   * (U+0041-005A, U+00C0-00DE but U+00D7, U+0391-03A9, U+0400-042F); other characters are
   * left as they are.
   */
  function LowerChar(c: char): char
  {
    if 'A' <= c <= 'Z' || ('\U{C0}' <= c <= '\U{DE}' && c != '\U{D7}')
      || ('\U{391}' <= c <= '\U{3A9}' && c != '\U{3A2}') || ('\U{410}' <= c <= '\U{42F}')
    then (c as int + 32) as char
    else if '\U{400}' <= c <= '\U{40F}' then (c as int + 80) as char
    else c
  }

  /** Lowering is idempotent: a lowered character has no capital left to lower. */
  lemma LowerCharIdempotent(c: char)
    ensures LowerChar(LowerChar(c)) == LowerChar(c)
  {
  }

  function Lower(s: string): string
  {
    seq(|s|, i requires 0 <= i < |s| => LowerChar(s[i]))
  }

  predicate StartsWith(s: string, prefix: string)
  {
    |prefix| <= |s| && s[..|prefix|] == prefix
  }

  /** QString::contains: `sub` occurs somewhere in `s` (the empty string occurs everywhere). */
  predicate Contains(s: string, sub: string)
    decreases |s|
  {
    StartsWith(s, sub) || (|s| > 0 && Contains(s[1..], sub))
  }

  /** `sub` occurs in `s` starting at position `i`. */
  predicate OccursAt(s: string, sub: string, i: int)
  {
    0 <= i <= |s| - |sub| && s[i..i + |sub|] == sub
  }

  /** `Contains` means what it says: `sub` occurs at some position of `s`. */
  lemma {:induction false} ContainsIffOccurs(s: string, sub: string)
    ensures Contains(s, sub) <==> exists i :: OccursAt(s, sub, i)
  {
    if StartsWith(s, sub) {
      assert OccursAt(s, sub, 0);
    } else if |s| > 0 {
      ContainsIffOccurs(s[1..], sub);
      if Contains(s[1..], sub) {
        var i :| OccursAt(s[1..], sub, i);
        assert s[i + 1..i + 1 + |sub|] == s[1..][i..i + |sub|];
        assert OccursAt(s, sub, i + 1);
      }
      if exists i :: OccursAt(s, sub, i) {
        var i :| OccursAt(s, sub, i);
        assert i != 0;
        assert OccursAt(s[1..], sub, i - 1);
      }
    }
  }

  /**
   * The filter test both the shortcut table and the info viewer apply: an empty filter lets
   * everything through, otherwise the lower-cased text must contain the lower-cased filter.
   */
  predicate MatchesFilter(filter: string, text: string)
  {
    filter == [] || Contains(Lower(text), Lower(filter))
  }

  /** The filter ignores case on both sides: lower-casing text or filter first changes nothing. */
  lemma FilterIgnoresCase(filter: string, text: string)
    ensures MatchesFilter(filter, text) == MatchesFilter(Lower(filter), text)
    ensures MatchesFilter(filter, text) == MatchesFilter(filter, Lower(text))
    ensures MatchesFilter([], text)
  {
    assert Lower(Lower(filter)) == Lower(filter);
    assert Lower(Lower(text)) == Lower(text);
  }

  /** The UTF-16 code units QString stores for `c`: one unit, or a surrogate pair above U+FFFF. */
  function Utf16(c: char): (units: seq<int>)
    ensures 1 <= |units| <= 2 && (|units| == 1 <==> c as int < 0x1_0000)
  {
    var v := c as int;
    if v < 0x1_0000 then [v]
    else [0xD800 + (v - 0x1_0000) / 0x400, 0xDC00 + (v - 0x1_0000) % 0x400]
  }

  /** Strict lexicographic order on sequences of code units. */
  predicate UnitsLess(a: seq<int>, b: seq<int>)
    decreases |a|
  {
    if a == [] then b != []
    else if b == [] then false
    else if a[0] != b[0] then a[0] < b[0]
    else UnitsLess(a[1..], b[1..])
  }

  /**
   * A number per character ordered as the character's UTF-16 code units are: characters below
   * the surrogate range keep their value, characters above U+FFFF follow them in the place of
   * their lead surrogates, and U+E000-FFFF come last.
   */
  function CodeUnitKey(c: char): int
  {
    var v := c as int;
    if v < 0xD800 then v
    else if v < 0x1_0000 then v + 0x10_0000
    else v - 0x1_0000 + 0xD800
  }

  /** Comparing keys is comparing the UTF-16 encodings, and different characters get different keys. */
  lemma CodeUnitKeyOrder(c: char, d: char)
    ensures CodeUnitKey(c) < CodeUnitKey(d) <==> UnitsLess(Utf16(c), Utf16(d))
    ensures CodeUnitKey(c) == CodeUnitKey(d) <==> c == d
  {
    var v, w := c as int, d as int;
    if v >= 0x1_0000 && w >= 0x1_0000 {
      var hv, lv := (v - 0x1_0000) / 0x400, (v - 0x1_0000) % 0x400;
      var hw, lw := (w - 0x1_0000) / 0x400, (w - 0x1_0000) % 0x400;
      assert v == 0x1_0000 + hv * 0x400 + lv && w == 0x1_0000 + hw * 0x400 + lw;
      assert Utf16(c)[1..] == [0xDC00 + lv] && Utf16(d)[1..] == [0xDC00 + lw];
      assert Utf16(c)[0] == 0xD800 + hv && Utf16(d)[0] == 0xD800 + hw;
      if hv < hw {
        assert v < w;
      } else if hw < hv {
        assert w < v;
        assert !UnitsLess(Utf16(c), Utf16(d));
      } else {
        assert UnitsLess(Utf16(c), Utf16(d)) == UnitsLess(Utf16(c)[1..], Utf16(d)[1..]);
        assert UnitsLess([0xDC00 + lv], [0xDC00 + lw]) <==> lv < lw;
        assert v < w <==> lv < lw;
      }
    }
  }

  /**
   * Strict order on strings as QString's operator< compares them, UTF-16 code unit by code
   * unit: at the first differing character, the one whose encoding is smaller comes first.
   */
  predicate LexLess(a: string, b: string)
    decreases |a|
  {
    if a == [] then b != []
    else if b == [] then false
    else if a[0] != b[0] then CodeUnitKey(a[0]) < CodeUnitKey(b[0])
    else LexLess(a[1..], b[1..])
  }

  /** A character above U+FFFF sorts before U+FF5E, although its scalar value is larger. */
  lemma SurrogatePairSortsBelowHalfwidth()
    ensures LexLess("\U{1F600}", "\U{FF5E}") && !LexLess("\U{FF5E}", "\U{1F600}")
  {
  }

  lemma {:induction false} LexLessIrreflexive(a: string)
    ensures !LexLess(a, a)
  {
    if a != [] {
      LexLessIrreflexive(a[1..]);
    }
  }

  lemma {:induction false} LexLessTransitive(a: string, b: string, c: string)
    requires LexLess(a, b) && LexLess(b, c)
    ensures LexLess(a, c)
    decreases |a|
  {
    if a != [] && b != [] && c != [] && a[0] == b[0] == c[0] {
      LexLessTransitive(a[1..], b[1..], c[1..]);
    }
  }

  lemma {:induction false} LexLessTotal(a: string, b: string)
    requires a != b
    ensures LexLess(a, b) || LexLess(b, a)
    decreases |a|
  {
    if a != [] && b != [] && a[0] == b[0] {
      assert a == [a[0]] + a[1..] && b == [b[0]] + b[1..];
      LexLessTotal(a[1..], b[1..]);
    } else if a != [] && b != [] {
      CodeUnitKeyOrder(a[0], b[0]);
    }
  }

  /** Position of the last `c` in `s`, or -1 (QString::lastIndexOf). */
  function LastIndexOf(s: string, c: char): (i: int)
    ensures -1 <= i < |s|
  {
    if s == [] then -1
    else if s[|s| - 1] == c then |s| - 1
    else LastIndexOf(s[..|s| - 1], c)
  }

  /** The index found holds `c` and no later position does; -1 exactly when `c` does not occur. */
  lemma {:induction false} LastIndexOfSpec(s: string, c: char)
    ensures var i := LastIndexOf(s, c);
      && -1 <= i < |s|
      && (i >= 0 ==> s[i] == c)
      && (forall j :: i < j < |s| ==> s[j] != c)
      && (i == -1 <==> c !in s)
  {
    if s != [] && s[|s| - 1] != c {
      var p := s[..|s| - 1];
      LastIndexOfSpec(p, c);
      var i := LastIndexOf(p, c);
      forall j | i < j < |s| ensures s[j] != c {
        if j < |p| {
          assert s[j] == p[j];
        }
      }
      if i == -1 {
        assert s == p + [s[|s| - 1]];
      }
    }
  }

  /** `dir + QDir::separator() + name`. */
  function Join(dir: Path, name: string): (p: Path)
  {
    dir + [Separator] + name
  }

  /** QFileInfo::fileName: the part of the path after its last separator. */
  function FileName(p: Path): string
  {
    p[LastIndexOf(p, Separator) + 1..]
  }

  /** The file name is a suffix of the path without a separator, and the whole path when it has none. */
  lemma FileNameSuffix(p: Path)
    ensures var name := FileName(p);
      && Separator !in name && |name| <= |p| && name == p[|p| - |name|..]
      && (Separator !in p ==> name == p)
  {
    LastIndexOfSpec(p, Separator);
  }

  /** Joining a directory with a plain file name and taking the file name back gives that name. */
  lemma FileNameOfJoin(dir: Path, name: string)
    requires Separator !in name
    ensures FileName(Join(dir, name)) == name
  {
    var p := Join(dir, name);
    LastIndexOfSpec(p, Separator);
    var k := LastIndexOf(p, Separator);
    assert p[|dir|] == Separator;
    assert k == |dir|;
    assert p[k + 1..] == name;
  }

  function DigitChar(d: nat): char
    requires d < 10
  {
    ('0' as int + d) as char
  }

  /** QString::arg(int) for a non-negative value: its decimal digits. */
  function DecimalString(n: nat): string
  {
    if n < 10 then [DigitChar(n)] else DecimalString(n / 10) + [DigitChar(n % 10)]
  }

  /** The decimal form is a nonempty run of digits, without separator or dot. */
  lemma {:induction false} DecimalDigits(n: nat)
    ensures |DecimalString(n)| > 0
    ensures forall i :: 0 <= i < |DecimalString(n)| ==> '0' <= DecimalString(n)[i] <= '9'
  {
    if n >= 10 {
      DecimalDigits(n / 10);
    }
  }
}
