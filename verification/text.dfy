/** The string primitives the log tool relies on, written out over
    `seq<char>`: ASCII lower-casing, substring containment (Python's
    `in` on strings), `str.strip()` and `str.split('\n')`. */
module Text {

  // ---------------------------------------------------------------------
  // Lower-casing
  // ---------------------------------------------------------------------

  predicate IsUpper(c: char) {
    'A' <= c <= 'Z'
  }

  /** Lower-cases an ASCII capital letter; every other character is kept. */
  function LowerChar(c: char): (d: char)
    ensures !IsUpper(d)
    ensures IsUpper(c) ==> d as int == c as int + 32
    ensures !IsUpper(c) ==> d == c
  {
    if IsUpper(c) then (c as int + 32) as char else c
  }

  function ToLower(s: string): (r: string)
    ensures |r| == |s|
    ensures forall i :: 0 <= i < |s| ==> r[i] == LowerChar(s[i])
  {
    seq(|s|, i requires 0 <= i < |s| => LowerChar(s[i]))
  }

  /** Lower-casing commutes with taking a slice. */
  lemma ToLowerSlice(s: string, i: int, j: int)
    requires 0 <= i <= j <= |s|
    ensures ToLower(s[i..j]) == ToLower(s)[i..j]
  {
  }

  // ---------------------------------------------------------------------
  // Substring containment
  // ---------------------------------------------------------------------

  predicate IsPrefix(p: string, s: string) {
    |p| <= |s| && s[..|p|] == p
  }

  /** `p in s` for Python strings: `p` occurs somewhere in `s`. It never
      holds for a word longer than the text, and always for the empty word. */
  predicate Contains(s: string, p: string)
    ensures Contains(s, p) ==> |p| <= |s|
    ensures p == [] ==> Contains(s, p)
    decreases |s|
  {
    IsPrefix(p, s) || (|s| > 0 && Contains(s[1..], p))
  }

  /** `p` occurs in `s` starting at position `i`. */
  predicate OccursAt(s: string, p: string, i: int) {
    0 <= i && i + |p| <= |s| && s[i..i + |p|] == p
  }

  /** The scanning definition of `Contains` agrees with the positional one. */
  lemma {:induction false} ContainsIff(s: string, p: string)
    ensures Contains(s, p) <==> exists i :: OccursAt(s, p, i)
    decreases |s|
  {
    if IsPrefix(p, s) {
      assert OccursAt(s, p, 0);
    } else if |s| > 0 {
      ContainsIff(s[1..], p);
      if exists i :: OccursAt(s[1..], p, i) {
        var i :| OccursAt(s[1..], p, i);
        assert s[i + 1..i + 1 + |p|] == s[1..][i..i + |p|];
        assert OccursAt(s, p, i + 1);
      }
      if exists i :: OccursAt(s, p, i) {
        var i :| OccursAt(s, p, i);
        if i == 0 {
          assert false;
        }
        assert s[1..][i - 1..i - 1 + |p|] == s[i..i + |p|];
        assert OccursAt(s[1..], p, i - 1);
      }
    }
  }

  /** An occurrence of `w` in `s` is, after lower-casing both, an occurrence
      of the lower-cased `w` in the lower-cased `s`: a search on lower-cased
      text finds every capitalisation of the word. */
  lemma ContainsToLower(s: string, w: string)
    requires Contains(s, w)
    ensures Contains(ToLower(s), ToLower(w))
  {
    ContainsIff(s, w);
    var i :| OccursAt(s, w, i);
    ToLowerSlice(s, i, i + |w|);
    assert OccursAt(ToLower(s), ToLower(w), i);
    ContainsIff(ToLower(s), ToLower(w));
  }

  // ---------------------------------------------------------------------
  // Whitespace stripping (Python's str.strip() with no argument)
  // ---------------------------------------------------------------------

  /** Python's `str.isspace` on one character: the ASCII controls TAB..CR,
      the separators 0x1C..0x1F, SPACE, NEL, NBSP and the Unicode space,
      line and paragraph separators. */
  predicate IsSpace(c: char) {
    var n := c as int;
    (9 <= n <= 13) || (28 <= n <= 32) || n == 0x85 || n == 0xA0 || n == 0x1680
    || (0x2000 <= n <= 0x200A) || n == 0x2028 || n == 0x2029 || n == 0x202F
    || n == 0x205F || n == 0x3000
  }

  /** Drops leading whitespace: the result is the suffix of `s` that starts
      at its first non-space character. */
  function TrimStart(s: string): (r: string)
    ensures |r| <= |s| && r == s[|s| - |r|..]
    ensures forall i :: 0 <= i < |s| - |r| ==> IsSpace(s[i])
    ensures |r| > 0 ==> !IsSpace(r[0])
    decreases |s|
  {
    if |s| > 0 && IsSpace(s[0]) then TrimStart(s[1..]) else s
  }

  /** Drops trailing whitespace: the result is the prefix of `s` that ends
      at its last non-space character. */
  function TrimEnd(s: string): (r: string)
    ensures |r| <= |s| && r == s[..|r|]
    ensures forall i :: |r| <= i < |s| ==> IsSpace(s[i])
    ensures |r| > 0 ==> !IsSpace(r[|r| - 1])
    decreases |s|
  {
    if |s| > 0 && IsSpace(s[|s| - 1]) then TrimEnd(s[..|s| - 1]) else s
  }

  /** Python's `str.strip()`: drops whitespace at both ends. The result is
      no longer than `s` and neither starts nor ends with whitespace. */
  function Strip(s: string): (r: string)
    ensures |r| <= |s|
    ensures r != [] ==> !IsSpace(r[0]) && !IsSpace(r[|r| - 1])
  {
    TrimEnd(TrimStart(s))
  }

  /** Everything of `s` outside `s[a..b]` is whitespace. */
  predicate OnlySpaceOutside(s: string, a: int, b: int) {
    && 0 <= a <= b <= |s|
    && (forall i :: 0 <= i < a ==> IsSpace(s[i]))
    && (forall i :: b <= i < |s| ==> IsSpace(s[i]))
  }

  /** `Strip` removes exactly the surrounding whitespace: it returns a slice
      of `s` whose outside is all space and whose ends are not. */
  lemma StripShape(s: string)
    ensures exists a, b :: OnlySpaceOutside(s, a, b) && Strip(s) == s[a..b]
    ensures var r := Strip(s);
            r != [] ==> !IsSpace(r[0]) && !IsSpace(r[|r| - 1])
  {
    var t := TrimStart(s);
    var u := TrimEnd(t);
    var a := |s| - |t|;
    TrimEndOutside(t);
    assert OnlySpaceOutside(t, 0, |u|);
    OutsideShift(s, a, |u|);
    if u != [] {
      assert u[0] == t[0];
    }
  }

  lemma TrimEndOutside(t: string)
    ensures OnlySpaceOutside(t, 0, |TrimEnd(t)|)
  {
  }

  /** Whitespace outside a slice of a suffix that starts after a whitespace
      prefix is whitespace outside the same slice of the whole string. */
  lemma OutsideShift(s: string, a: int, n: int)
    requires 0 <= a <= |s| && forall i :: 0 <= i < a ==> IsSpace(s[i])
    requires OnlySpaceOutside(s[a..], 0, n)
    ensures OnlySpaceOutside(s, a, a + n) && s[a..][..n] == s[a..a + n]
  {
    forall i | a + n <= i < |s|
      ensures IsSpace(s[i])
    {
      assert s[i] == s[a..][i - a];
    }
  }

  /** A string strips to nothing exactly when it is all whitespace. */
  lemma StripEmptyIff(s: string)
    ensures Strip(s) == [] <==> forall i :: 0 <= i < |s| ==> IsSpace(s[i])
  {
  }

  // ---------------------------------------------------------------------
  // Splitting on a separator (Python's str.split(sep) with one character)
  // ---------------------------------------------------------------------

  /** The pieces of `s` between occurrences of `sep`. Like Python, the empty
      string splits into one empty piece. */
  function Split(s: string, sep: char): (parts: seq<string>)
    ensures |parts| >= 1
    ensures forall k :: 0 <= k < |parts| ==> sep !in parts[k]
    decreases |s|
  {
    if |s| == 0 then [""]
    else
      var rest := Split(s[1..], sep);
      if s[0] == sep then [""] + rest
      else [[s[0]] + rest[0]] + rest[1..]
  }

  /** Glues pieces back together with `sep` between neighbours. */
  function Join(parts: seq<string>, sep: char): string
    decreases |parts|
  {
    if |parts| == 0 then ""
    else if |parts| == 1 then parts[0]
    else parts[0] + [sep] + Join(parts[1..], sep)
  }

  /** Splitting loses nothing: joining the pieces gives back the string. */
  lemma {:induction false} SplitJoin(s: string, sep: char)
    ensures Join(Split(s, sep), sep) == s
    decreases |s|
  {
    if |s| > 0 {
      var rest := Split(s[1..], sep);
      SplitJoin(s[1..], sep);
      if s[0] == sep {
        assert s == [sep] + s[1..];
      } else {
        var parts := Split(s, sep);
        if |rest| == 1 {
          assert s == [s[0]] + s[1..];
        } else {
          assert parts[1..] == rest[1..];
          assert Join(parts, sep) == [s[0]] + rest[0] + [sep] + Join(rest[1..], sep);
          assert s == [s[0]] + s[1..];
        }
      }
    }
  }

  /** A string with no separator in it is one piece. */
  lemma {:induction false} SplitNoSeparator(s: string, sep: char)
    requires sep !in s
    ensures Split(s, sep) == [s]
    decreases |s|
  {
    if |s| > 0 {
      assert sep !in s[1..] by {
        forall k | 0 <= k < |s[1..]| ensures s[1..][k] != sep {
          assert s[1..][k] == s[k + 1];
        }
      }
      SplitNoSeparator(s[1..], sep);
      assert s == [s[0]] + s[1..];
    }
  }
}
