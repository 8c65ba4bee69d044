/**
 * The JavaScript string primitives the backend relies on, over `seq<char>`:
 * the `\s` character class (which is also the set `String.prototype.trim`
 * removes), the `\w` class, `trim`, `split` on a one-character separator and
 * the part of `toLowerCase` that can produce ASCII letters.
 */
module Text {

  /** The characters matched by `\s` and removed by `trim`: white space and line terminators. */
  predicate IsWhitespace(c: char) {
    || c == ' ' || c == '\t' || c == '\n' || c == '\U{000B}' || c == '\U{000C}' || c == '\r'
    || c == '\U{00A0}' || c == '\U{1680}' || ('\U{2000}' <= c <= '\U{200A}')
    || c == '\U{2028}' || c == '\U{2029}' || c == '\U{202F}' || c == '\U{205F}'
    || c == '\U{3000}' || c == '\U{FEFF}'
  }

  predicate IsAsciiUpper(c: char) { 'A' <= c <= 'Z' }

  predicate IsAsciiLower(c: char) { 'a' <= c <= 'z' }

  predicate IsDigit(c: char) { '0' <= c <= '9' }

  /** The class `[a-zA-Z0-9]`. */
  predicate IsAsciiAlnum(c: char) { IsAsciiUpper(c) || IsAsciiLower(c) || IsDigit(c) }

  /** The class `\w` of a regular expression without the `u` flag: `[A-Za-z0-9_]`. */
  predicate IsWordChar(c: char) { IsAsciiAlnum(c) || c == '_' }

  predicate AllWhitespace(s: string) {
    forall i :: 0 <= i < |s| ==> IsWhitespace(s[i])
  }

  predicate NoWhitespace(s: string) {
    forall i :: 0 <= i < |s| ==> !IsWhitespace(s[i])
  }

  /** Neither end of `s` is white space: what `trim` leaves behind. */
  predicate IsTrimmed(s: string) {
    s == [] || (!IsWhitespace(s[0]) && !IsWhitespace(s[|s| - 1]))
  }

  /** Removes the leading white-space run. */
  function TrimStart(s: string): (r: string)
    ensures |r| <= |s| && r == s[|s| - |r|..]
    ensures AllWhitespace(s[..|s| - |r|])
    ensures r == [] || !IsWhitespace(r[0])
    ensures |s| > 0 && IsWhitespace(s[0]) ==> |r| < |s|
    decreases |s|
  {
    if |s| > 0 && IsWhitespace(s[0]) then
      var r := TrimStart(s[1..]);
      assert s[1..][|s| - 1 - |r|..] == s[|s| - |r|..];
      assert s[..|s| - |r|] == [s[0]] + s[1..][..|s| - 1 - |r|];
      r
    else s
  }

  /** Removes the trailing white-space run. */
  function TrimEnd(s: string): (r: string)
    ensures |r| <= |s| && r == s[..|r|]
    ensures AllWhitespace(s[|r|..])
    ensures r == [] || !IsWhitespace(r[|r| - 1])
    decreases |s|
  {
    if |s| > 0 && IsWhitespace(s[|s| - 1]) then
      var r := TrimEnd(s[..|s| - 1]);
      assert forall i :: |r| <= i < |s| ==> i == |s| - 1 || s[i] == s[..|s| - 1][i];
      r
    else s
  }

  /** `String.prototype.trim`. */
  function Trim(s: string): (r: string)
  {
    TrimEnd(TrimStart(s))
  }

  /**
   * `trim` removes exactly a white-space prefix and a white-space suffix and
   * leaves a string with no white space at either end.
   */
  lemma TrimCharacterisation(s: string)
    ensures var r := Trim(s);
      exists i :: 0 <= i <= i + |r| <= |s| && r == s[i..i + |r|]
        && AllWhitespace(s[..i]) && AllWhitespace(s[i + |r|..])
    ensures IsTrimmed(Trim(s))
  {
    TrimLeavesTrimmed(s);
    TrimWindow(s);
    TrimDropsWhitespace(s);
  }

  /** What `trim` keeps is the window of `s` starting after the leading white space. */
  lemma TrimWindow(s: string)
    ensures var i := |s| - |TrimStart(s)|;
      i + |Trim(s)| <= |s| && Trim(s) == s[i..i + |Trim(s)|]
  {
    var t := TrimStart(s);
    var r := TrimEnd(t);
    var i := |s| - |t|;
    assert t == s[i..] && r == t[..|r|];
    assert t[..|r|] == s[i..i + |r|];
  }

  /** What `trim` drops on either side of its window is white space. */
  lemma TrimDropsWhitespace(s: string)
    ensures var i := |s| - |TrimStart(s)|;
      i + |Trim(s)| <= |s| && AllWhitespace(s[..i]) && AllWhitespace(s[i + |Trim(s)|..])
  {
    var t := TrimStart(s);
    var r := TrimEnd(t);
    var i := |s| - |t|;
    assert s[i + |r|..] == t[|r|..];
  }

  lemma TrimLeavesTrimmed(s: string)
    ensures IsTrimmed(Trim(s))
  {
    var t := TrimStart(s);
    var r := TrimEnd(t);
    if r != [] {
      assert r[0] == t[0];
    }
  }

  /** A string without white space at its ends is left alone by `trim`. */
  lemma TrimOfTrimmed(s: string)
    requires IsTrimmed(s)
    ensures Trim(s) == s
  {
  }

  /** `trim` is idempotent. */
  lemma TrimIdempotent(s: string)
    ensures Trim(Trim(s)) == Trim(s)
  {
    TrimCharacterisation(s);
    TrimOfTrimmed(Trim(s));
  }

  /** `trim` only removes characters: one absent before is absent after. */
  lemma TrimKeepsAbsent(s: string, c: char)
    requires c !in s
    ensures c !in Trim(s)
  {
    TrimCharacterisation(s);
  }

  /** Number of occurrences of `c` in `s`. */
  function Count(s: string, c: char): nat
    decreases |s|
  {
    if s == [] then 0 else (if s[0] == c then 1 else 0) + Count(s[1..], c)
  }

  /** A character outside the Basic Multilingual Plane: UTF-16 spells it as a surrogate pair. */
  predicate IsAstral(c: char) { c >= '\U{10000}' }

  /** `s.length`: the number of UTF-16 code units, one per character and one more per astral character. */
  function Utf16Length(s: string): (n: nat)
    ensures |s| <= n <= 2 * |s|
    decreases |s|
  {
    if s == [] then 0 else (if IsAstral(s[0]) then 2 else 1) + Utf16Length(s[1..])
  }

  /** The code-unit length agrees with the character count exactly without astral characters, and doubles it exactly when all are astral. */
  lemma {:induction false} Utf16LengthCounts(s: string)
    ensures Utf16Length(s) == |s| <==> forall i :: 0 <= i < |s| ==> !IsAstral(s[i])
    ensures Utf16Length(s) == 2 * |s| <==> forall i :: 0 <= i < |s| ==> IsAstral(s[i])
    decreases |s|
  {
    if s != [] {
      Utf16LengthCounts(s[1..]);
      assert forall i :: 1 <= i < |s| ==> s[i] == s[1..][i - 1];
    }
  }

  /** `s.split(sep)` for a one-character separator: empty pieces are kept. */
  function Split(s: string, sep: char): (r: seq<string>)
    ensures |r| == Count(s, sep) + 1
    ensures forall i :: 0 <= i < |r| ==> sep !in r[i]
    decreases |s|
  {
    if s == [] then [""]
    else
      var rest := Split(s[1..], sep);
      if s[0] == sep then [""] + rest
      else [[s[0]] + rest[0]] + rest[1..]
  }

  /** `parts.join(sep)`: the inverse of `Split`. */
  function Join(parts: seq<string>, sep: char): string
    decreases |parts|
  {
    if parts == [] then ""
    else if |parts| == 1 then parts[0]
    else parts[0] + [sep] + Join(parts[1..], sep)
  }

  /** Joining the pieces of a split with the separator gives back the original string. */
  lemma {:induction false} JoinSplit(s: string, sep: char)
    ensures Join(Split(s, sep), sep) == s
    decreases |s|
  {
    if s != [] {
      JoinSplit(s[1..], sep);
      var rest := Split(s[1..], sep);
      if s[0] != sep {
        if |rest| == 1 {
          assert Join(Split(s, sep), sep) == [s[0]] + rest[0];
        } else {
          assert Join(Split(s, sep), sep) == [s[0]] + rest[0] + [sep] + Join(rest[1..], sep);
          assert s[1..] == rest[0] + [sep] + Join(rest[1..], sep);
        }
        assert s == [s[0]] + s[1..];
      }
    }
  }

  /** Splitting a join of separator-free pieces gives back the pieces. */
  lemma {:induction false} SplitJoin(parts: seq<string>, sep: char)
    requires |parts| > 0
    requires forall i :: 0 <= i < |parts| ==> sep !in parts[i]
    ensures Split(Join(parts, sep), sep) == parts
    decreases |parts|, |parts[0]|
  {
    var p := parts[0];
    if p == [] {
      if |parts| > 1 {
        SplitJoin(parts[1..], sep);
        SplitJoinEmptyHead(parts, sep);
      }
    } else {
      var parts' := [p[1..]] + parts[1..];
      assert sep !in p[1..] by {
        forall k | 0 <= k < |p[1..]| ensures p[1..][k] != sep {
          assert p[1..][k] == p[k + 1];
        }
      }
      SplitJoin(parts', sep);
      SplitJoinHead(parts, sep);
    }
  }

  /** The step of `SplitJoin` for an empty first piece. */
  lemma SplitJoinEmptyHead(parts: seq<string>, sep: char)
    requires |parts| > 1 && parts[0] == []
    requires Split(Join(parts[1..], sep), sep) == parts[1..]
    ensures Split(Join(parts, sep), sep) == parts
  {
    assert Join(parts, sep) == [sep] + Join(parts[1..], sep);
    assert Join(parts, sep)[1..] == Join(parts[1..], sep);
  }

  /** The step of `SplitJoin` that moves the first character of a non-empty first piece. */
  lemma SplitJoinHead(parts: seq<string>, sep: char)
    requires |parts| > 0 && parts[0] != [] && parts[0][0] != sep
    requires Split(Join([parts[0][1..]] + parts[1..], sep), sep) == [parts[0][1..]] + parts[1..]
    ensures Split(Join(parts, sep), sep) == parts
  {
    var p := parts[0];
    var parts' := [p[1..]] + parts[1..];
    assert parts'[1..] == parts[1..];
    if |parts| == 1 {
      assert Join(parts, sep) == p;
      assert Join(parts', sep) == p[1..];
    } else {
      assert Join(parts', sep) == p[1..] + [sep] + Join(parts[1..], sep);
      assert Join(parts, sep) == p + [sep] + Join(parts[1..], sep);
    }
    var j := Join(parts, sep);
    assert j[0] == p[0] && j[1..] == Join(parts', sep);
    assert [p[0]] + p[1..] == p;
    assert parts == [[p[0]] + p[1..]] + parts[1..];
  }

  /** `c.toLowerCase()` restricted to what can yield an ASCII letter; see `Lower`. */
  function LowerChar(c: char): (r: seq<char>)
    ensures forall i :: 0 <= i < |r| ==> !IsAsciiUpper(r[i])
  {
    if IsAsciiUpper(c) then [(c as int + 32) as char]
    else if c == '\U{212A}' then ['k']              // KELVIN SIGN
    else if c == '\U{0130}' then ['i', '\U{0307}']  // LATIN CAPITAL LETTER I WITH DOT ABOVE
    else [c]
  }

  /**
   * `s.toLowerCase()` for every character whose lower case contains an ASCII
   * letter; other characters are kept as they are.
   */
  function Lower(s: string): (r: string)
    ensures forall i :: 0 <= i < |r| ==> !IsAsciiUpper(r[i])
    decreases |s|
  {
    if s == [] then [] else LowerChar(s[0]) + Lower(s[1..])
  }

  /** Lowering twice is lowering once. */
  lemma {:induction false} LowerIdempotent(s: string)
    ensures Lower(Lower(s)) == Lower(s)
    decreases |s|
  {
    if s != [] {
      LowerIdempotent(s[1..]);
      LowerAppend(LowerChar(s[0]), Lower(s[1..]));
    }
  }

  lemma {:induction false} LowerAppend(a: string, b: string)
    ensures Lower(a + b) == Lower(a) + Lower(b)
    decreases |a|
  {
    if a != [] {
      assert (a + b)[0] == a[0];
      assert (a + b)[1..] == a[1..] + b;
      LowerAppend(a[1..], b);
      assert Lower(a + b) == LowerChar(a[0]) + (Lower(a[1..]) + Lower(b));
    } else {
      assert a + b == b;
    }
  }

  /** `toLowerCase` keeps white space and never turns another character into white space. */
  lemma LowerCharWhitespace(c: char)
    ensures IsWhitespace(c) ==> LowerChar(c) == [c]
    ensures !IsWhitespace(c) ==>
      LowerChar(c) != [] && !IsWhitespace(LowerChar(c)[0]) && !IsWhitespace(LowerChar(c)[|LowerChar(c)| - 1])
  {
  }

  lemma {:induction false} TrimStartLower(s: string)
    ensures TrimStart(Lower(s)) == Lower(TrimStart(s))
    decreases |s|
  {
    if s != [] {
      LowerCharWhitespace(s[0]);
      var l := Lower(s);
      if IsWhitespace(s[0]) {
        TrimStartLower(s[1..]);
        assert l == [s[0]] + Lower(s[1..]);
        assert l[1..] == Lower(s[1..]);
      } else {
        assert l[0] == LowerChar(s[0])[0];
      }
    }
  }

  lemma {:induction false} TrimEndLower(s: string)
    ensures TrimEnd(Lower(s)) == Lower(TrimEnd(s))
    decreases |s|
  {
    if s != [] {
      var c := s[|s| - 1];
      var init := s[..|s| - 1];
      assert s == init + [c];
      LowerAppend(init, [c]);
      assert Lower([c]) == LowerChar(c) by {
        assert [c][1..] == [];
      }
      LowerCharWhitespace(c);
      var l := Lower(s);
      if IsWhitespace(c) {
        TrimEndLower(init);
        assert l[..|l| - 1] == Lower(init);
      } else {
        assert l[|l| - 1] == LowerChar(c)[|LowerChar(c)| - 1];
      }
    }
  }

  /** The `trim` and `lowercase` setters commute, so the order Mongoose applies them in does not matter. */
  lemma TrimLowerCommute(s: string)
    ensures Trim(Lower(s)) == Lower(Trim(s))
  {
    TrimStartLower(s);
    TrimEndLower(TrimStart(s));
  }

  /** The ASCII lower-case mapping, one character at a time. */
  function AsciiLower(c: char): char {
    if IsAsciiUpper(c) then (c as int + 32) as char else c
  }

  /** On ASCII text `toLowerCase` maps each character on its own and keeps the length. */
  lemma {:induction false} LowerOfAscii(s: string)
    requires forall i :: 0 <= i < |s| ==> s[i] < '\U{0080}'
    ensures Lower(s) == seq(|s|, i requires 0 <= i < |s| => AsciiLower(s[i]))
    decreases |s|
  {
    if s != [] {
      LowerOfAscii(s[1..]);
    }
  }

  /** A string of ASCII lower-case letters, digits and `-` is its own lower case. */
  lemma {:induction false} LowerOfSlugChars(s: string)
    requires forall i :: 0 <= i < |s| ==> IsAsciiLower(s[i]) || IsDigit(s[i]) || s[i] == '-'
    ensures Lower(s) == s
    decreases |s|
  {
    if s != [] {
      LowerOfSlugChars(s[1..]);
    }
  }
}
