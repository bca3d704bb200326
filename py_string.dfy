/** The few Python `str` operations the session builder relies on:
    `split(sep)`, `sep.join(fields)`, `replace(old, new)` and `rstrip(chars)`.
    Strings are sequences of Unicode code points, as in Python 3. */
module PyString {

  /** `s.startswith(prefix)`. */
  predicate StartsWith(s: string, prefix: string)
  {
    |prefix| <= |s| && s[..|prefix|] == prefix
  }

  /** `s.split(sep)` for a non-empty separator: the pieces between the
      leftmost, non-overlapping occurrences of `sep`, scanning left to right. */
  function SplitOn(s: string, sep: string): (fields: seq<string>)
    requires sep != []
    ensures |fields| >= 1
    decreases |s|
  {
    if StartsWith(s, sep) then [""] + SplitOn(s[|sep|..], sep)
    else if s == [] then [""]
    else
      var rest := SplitOn(s[1..], sep);
      [[s[0]] + rest[0]] + rest[1..]
  }

  /** `sep.join(fields)`. */
  function JoinWith(fields: seq<string>, sep: string): (joined: string)
  {
    if |fields| == 0 then ""
    else if |fields| == 1 then fields[0]
    else fields[0] + sep + JoinWith(fields[1..], sep)
  }

  /** `s.replace(needle, replacement)` for a non-empty needle: every leftmost,
      non-overlapping occurrence of `needle` is replaced, scanning left to right. */
  function Replace(s: string, needle: string, replacement: string): (r: string)
    requires needle != []
    decreases |s|
  {
    if StartsWith(s, needle) then replacement + Replace(s[|needle|..], needle, replacement)
    else if s == [] then []
    else [s[0]] + Replace(s[1..], needle, replacement)
  }

  /** `s.rstrip(chars)`: drops the longest suffix made only of characters in `chars`. */
  function RStrip(s: string, chars: set<char>): (r: string)
    ensures |r| <= |s|
    decreases |s|
  {
    if s != [] && s[|s| - 1] in chars then RStrip(s[..|s| - 1], chars) else s
  }

  /** The result of `rstrip` is a prefix of `s`, does not end in a stripped
      character, and only stripped characters were removed. */
  lemma {:induction false} RStripSpec(s: string, chars: set<char>)
    ensures var r := RStrip(s, chars);
      && s[..|r|] == r
      && (r == [] || r[|r| - 1] !in chars)
      && forall i :: |r| <= i < |s| ==> s[i] in chars
    decreases |s|
  {
    if s != [] && s[|s| - 1] in chars {
      RStripSpec(s[..|s| - 1], chars);
    }
  }

  /** The characters for which Python's `str.isspace()` holds; `s.rstrip()` with no
      argument strips exactly these. */
  const Whitespace: set<char> := {
    '\t', '\n', '\U{000B}', '\U{000C}', '\r', '\U{001C}', '\U{001D}', '\U{001E}', '\U{001F}',
    ' ', '\U{0085}', '\U{00A0}', '\U{1680}',
    '\U{2000}', '\U{2001}', '\U{2002}', '\U{2003}', '\U{2004}', '\U{2005}', '\U{2006}',
    '\U{2007}', '\U{2008}', '\U{2009}', '\U{200A}',
    '\U{2028}', '\U{2029}', '\U{202F}', '\U{205F}', '\U{3000}'
  }

  /** A line made only of whitespace (an empty line included) strips to "". */
  lemma RStripAllStripped(s: string, chars: set<char>)
    requires forall i :: 0 <= i < |s| ==> s[i] in chars
    ensures RStrip(s, chars) == []
  {
    RStripSpec(s, chars);
  }

  /** Appending stripped characters does not change the result of RStrip. */
  lemma RStripTrailing(s: string, ws: string, chars: set<char>)
    requires forall i :: 0 <= i < |ws| ==> ws[i] in chars
    ensures RStrip(s + ws, chars) == RStrip(s, chars)
  {
    var r := RStrip(s, chars);
    RStripSpec(s, chars);
    assert (s + ws)[..|r|] == r;
    assert forall i :: |s| <= i < |s + ws| ==> (s + ws)[i] == ws[i - |s|];
    RStripUnique(s + ws, chars, r);
  }

  /** Any string is the RStrip of itself followed by stripped characters only:
      RStrip is determined by its contract. */
  lemma RStripUnique(s: string, chars: set<char>, r: string)
    requires |r| <= |s| && s[..|r|] == r
    requires r == [] || r[|r| - 1] !in chars
    requires forall i :: |r| <= i < |s| ==> s[i] in chars
    ensures RStrip(s, chars) == r
  {
    RStripSpec(s, chars);
  }

  // ---------------------------------------------------------------------------
  // Joining a list whose first field is extended by one character.

  lemma {:induction false} JoinWithConsFirst(c: char, fields: seq<string>, sep: string)
    requires |fields| >= 1
    ensures JoinWith([[c] + fields[0]] + fields[1..], sep) == [c] + JoinWith(fields, sep)
  {
    var g := [[c] + fields[0]] + fields[1..];
    if |fields| > 1 {
      assert g[1..] == fields[1..];
    }
  }

  lemma JoinWithEmptyFirst(fields: seq<string>, sep: string)
    requires |fields| >= 1
    ensures JoinWith([""] + fields, sep) == sep + JoinWith(fields, sep)
  {
    assert ([""] + fields)[1..] == fields;
  }

  /** `s.replace(a, b)` is `b.join(s.split(a))`: Replace substitutes exactly the
      separators that SplitOn cuts at. */
  lemma {:induction false} ReplaceIsJoinOfSplit(s: string, needle: string, replacement: string)
    requires needle != []
    ensures Replace(s, needle, replacement) == JoinWith(SplitOn(s, needle), replacement)
    decreases |s|
  {
    if StartsWith(s, needle) {
      ReplaceIsJoinOfSplit(s[|needle|..], needle, replacement);
      JoinWithEmptyFirst(SplitOn(s[|needle|..], needle), replacement);
    } else if s != [] {
      ReplaceIsJoinOfSplit(s[1..], needle, replacement);
      JoinWithConsFirst(s[0], SplitOn(s[1..], needle), replacement);
    }
  }

  /** Replacing a needle by itself changes nothing. */
  lemma {:induction false} ReplaceBySelf(s: string, needle: string)
    requires needle != []
    ensures Replace(s, needle, needle) == s
    decreases |s|
  {
    if StartsWith(s, needle) {
      ReplaceBySelf(s[|needle|..], needle);
      assert s == needle + s[|needle|..];
    } else if s != [] {
      ReplaceBySelf(s[1..], needle);
      assert s == [s[0]] + s[1..];
    }
  }

  /** Round trip: joining the pieces of a split with the same separator gives
      back the original string. */
  lemma SplitThenJoin(s: string, sep: string)
    requires sep != []
    ensures JoinWith(SplitOn(s, sep), sep) == s
  {
    ReplaceIsJoinOfSplit(s, sep, sep);
    ReplaceBySelf(s, sep);
  }

  /** Without an occurrence of the needle at any position, Replace is the identity. */
  lemma {:induction false} ReplaceAbsent(s: string, needle: string, replacement: string)
    requires needle != []
    requires forall i :: 0 <= i <= |s| ==> !StartsWith(s[i..], needle)
    ensures Replace(s, needle, replacement) == s
    decreases |s|
  {
    if s != [] {
      assert s[0..] == s;
      forall i | 0 <= i <= |s[1..]| ensures !StartsWith(s[1..][i..], needle) {
        assert s[1..][i..] == s[i + 1..];
      }
      ReplaceAbsent(s[1..], needle, replacement);
    }
  }

  /** A needle that is the whole string is replaced once. */
  lemma ReplaceWhole(needle: string, replacement: string)
    requires needle != []
    ensures Replace(needle, needle, replacement) == replacement
  {
    assert StartsWith(needle, needle);
    assert needle[|needle|..] == [];
  }

  /** A prefix match survives extending the string. */
  lemma StartsWithExtended(a: string, x: string, prefix: string)
    requires StartsWith(a, prefix)
    ensures StartsWith(a + x, prefix)
  {
    assert (a + x)[..|prefix|] == a[..|prefix|];
  }

  /** A match at the start of `a + [c] + b` of a needle without `c` lies within `a`. */
  lemma MatchBeforeChar(a: string, c: char, b: string, needle: string)
    requires c !in needle && StartsWith(a + [c] + b, needle)
    ensures StartsWith(a, needle)
  {
    var s := a + [c] + b;
    assert s[..|needle|] == needle;
    assert |needle| <= |a| by {
      assert forall k :: 0 <= k < |needle| ==> needle[k] != c;
      assert |a| < |s| && s[|a|] == c;
    }
    assert a[..|needle|] == s[..|needle|];
  }

  /** No occurrence of a needle spans a character the needle does not contain, so
      Replace works on both sides of that character independently. */
  lemma {:induction false} ReplaceAroundChar(a: string, c: char, b: string, needle: string, replacement: string)
    requires needle != [] && c !in needle
    ensures Replace(a + [c] + b, needle, replacement) ==
      Replace(a, needle, replacement) + [c] + Replace(b, needle, replacement)
    decreases |a|
  {
    var s := a + [c] + b;
    if a == [] {
      assert s == [c] + b;
      assert !StartsWith(s, needle) by { assert s[0] == c; assert needle[0] != c; }
      assert s[1..] == b;
    } else if StartsWith(a, needle) {
      StartsWithExtended(a, [c] + b, needle);
      assert a + ([c] + b) == s;
      assert s[|needle|..] == a[|needle|..] + [c] + b;
      ReplaceAroundChar(a[|needle|..], c, b, needle, replacement);
    } else {
      assert !StartsWith(s, needle) by {
        if StartsWith(s, needle) { MatchBeforeChar(a, c, b, needle); }
      }
      assert s[1..] == a[1..] + [c] + b;
      ReplaceAroundChar(a[1..], c, b, needle, replacement);
    }
  }

  /** A character absent from the string and from the replacement stays absent. */
  lemma {:induction false} ReplaceKeepsAbsent(s: string, needle: string, replacement: string, c: char)
    requires needle != [] && c !in s && c !in replacement
    ensures c !in Replace(s, needle, replacement)
    decreases |s|
  {
    if StartsWith(s, needle) {
      ReplaceKeepsAbsent(s[|needle|..], needle, replacement, c);
    } else if s != [] {
      ReplaceKeepsAbsent(s[1..], needle, replacement, c);
    }
  }

  /** Dropping the first character of an unmatched prefix leaves an unmatched
      prefix. */
  lemma UnmatchedPrefixShift(a: string, rest: string, needle: string)
    requires a != []
    requires forall i :: 0 <= i < |a| ==> !StartsWith((a + rest)[i..], needle)
    ensures !StartsWith(a + rest, needle)
    ensures forall i :: 0 <= i < |a[1..]| ==> !StartsWith((a[1..] + rest)[i..], needle)
  {
    var s := a + rest;
    assert s[0..] == s;
    forall i | 0 <= i < |a[1..]| ensures !StartsWith((a[1..] + rest)[i..], needle) {
      assert (a[1..] + rest)[i..] == s[i + 1..];
    }
  }

  /** A prefix at none of whose positions the needle matches is copied
      unchanged; replacing starts after it. */
  lemma {:induction false} ReplaceUnmatchedPrefix(a: string, rest: string, needle: string, replacement: string)
    requires needle != []
    requires forall i :: 0 <= i < |a| ==> !StartsWith((a + rest)[i..], needle)
    ensures Replace(a + rest, needle, replacement) == a + Replace(rest, needle, replacement)
    decreases |a|
  {
    if a != [] {
      var s := a + rest;
      UnmatchedPrefixShift(a, rest, needle);
      assert Replace(s, needle, replacement) == [s[0]] + Replace(s[1..], needle, replacement);
      assert s[1..] == a[1..] + rest;
      ReplaceUnmatchedPrefix(a[1..], rest, needle, replacement);
      assert s[0] == a[0];
      assert [a[0]] + a[1..] == a;
    } else {
      assert a + rest == rest;
    }
  }

  // ---------------------------------------------------------------------------
  // Splitting on a single character, as `name.split('_')` does.

  /** Splitting on one character gives one field more than there are occurrences
      of that character, and no field contains it. */
  lemma {:induction false} SplitOnChar(s: string, c: char)
    ensures |SplitOn(s, [c])| == multiset(s)[c] + 1
    ensures forall f :: f in SplitOn(s, [c]) ==> c !in f
    decreases |s|
  {
    if s != [] {
      assert s == [s[0]] + s[1..];
      assert multiset(s) == multiset{s[0]} + multiset(s[1..]);
      SplitOnChar(s[1..], c);
      var rest := SplitOn(s[1..], [c]);
      if StartsWith(s, [c]) {
        assert s[0] == c;
      } else {
        assert s[0] != c;
        assert rest[0] in rest;
        forall f | f in [[s[0]] + rest[0]] + rest[1..] ensures c !in f {
          if f != [s[0]] + rest[0] {
            assert f in rest;
          }
        }
      }
    }
  }

  /** A string without the separator character splits into itself alone. */
  lemma {:induction false} SplitOnCharAbsent(s: string, c: char)
    requires c !in s
    ensures SplitOn(s, [c]) == [s]
    decreases |s|
  {
    if s != [] {
      assert s[0] != c;
      SplitOnCharAbsent(s[1..], c);
      assert [s[0]] + s[1..] == s;
    }
  }

  lemma {:induction false} SplitOnCharAppend(a: string, c: char, b: string)
    requires c !in a
    ensures SplitOn(a + [c] + b, [c]) == [a] + SplitOn(b, [c])
    decreases |a|
  {
    var s := a + [c] + b;
    if a == [] {
      assert s == [c] + b;
      assert s[1..] == b;
    } else {
      assert s[0] == a[0] != c;
      assert s[1..] == a[1..] + [c] + b;
      SplitOnCharAppend(a[1..], c, b);
      assert [a[0]] + a[1..] == a;
    }
  }

  /** Round trip the other way: fields free of the separator character come back
      unchanged from splitting their join. */
  lemma {:induction false} JoinThenSplit(fields: seq<string>, c: char)
    requires |fields| >= 1
    requires forall f :: f in fields ==> c !in f
    ensures SplitOn(JoinWith(fields, [c]), [c]) == fields
    decreases |fields|
  {
    assert fields[0] in fields;
    if |fields| == 1 {
      SplitOnCharAbsent(fields[0], c);
    } else {
      forall f | f in fields[1..] ensures c !in f {
        assert f in fields;
      }
      JoinThenSplit(fields[1..], c);
      SplitOnCharAppend(fields[0], c, JoinWith(fields[1..], [c]));
      assert [fields[0]] + fields[1..] == fields;
    }
  }
}
