/**
 * Slug derivation on blog creation: lower-case the title, drop every
 * character outside `[a-zA-Z0-9\s]`, turn each white-space run into `-`,
 * trim, then probe `base`, `base-1`, `base-2`, ... against the slugs already
 * stored until one is free.
 */
module Slug {
  import opened Text
  import opened Numeric

  /** Characters that survive `.replace(/[^a-zA-Z0-9\s]/g, '')`. */
  predicate Kept(c: char) { IsAsciiAlnum(c) || IsWhitespace(c) }

  /** `.replace(/[^a-zA-Z0-9\s]/g, '')`. */
  function StripDisallowed(s: string): (r: string)
    ensures forall i :: 0 <= i < |r| ==> Kept(r[i])
    ensures (forall i :: 0 <= i < |s| ==> !IsAsciiUpper(s[i])) ==> forall i :: 0 <= i < |r| ==> !IsAsciiUpper(r[i])
    decreases |s|
  {
    if s == [] then []
    else (if Kept(s[0]) then [s[0]] else []) + StripDisallowed(s[1..])
  }

  /** `.replace(/\s+/g, '-')`: every maximal white-space run becomes one `-`. */
  function Hyphenate(s: string): (r: string)
    ensures NoWhitespace(r)
    ensures r == [] <==> s == []
    ensures |s| > 0 && !IsWhitespace(s[0]) ==> r[0] == s[0]
    decreases |s|
  {
    if s == [] then []
    else if IsWhitespace(s[0]) then
      var rest := Hyphenate(TrimStart(s));
      assert forall i :: 0 < i <= |rest| ==> ("-" + rest)[i] == rest[i - 1];
      "-" + rest
    else
      var rest := Hyphenate(s[1..]);
      assert forall i :: 0 < i <= |rest| ==> ([s[0]] + rest)[i] == rest[i - 1];
      [s[0]] + rest
  }

  /** The base slug of a title. */
  function BaseSlug(title: string): string {
    Trim(Hyphenate(StripDisallowed(Lower(title))))
  }

  /** Only `a-z`, `0-9` and `-`. */
  predicate IsSlugText(s: string) {
    forall i :: 0 <= i < |s| ==> IsAsciiLower(s[i]) || IsDigit(s[i]) || s[i] == '-'
  }

  predicate NoHyphen(s: string) {
    forall i :: 0 <= i < |s| ==> s[i] != '-'
  }

  predicate NoDoubleHyphen(s: string) {
    forall i :: 0 <= i < |s| - 1 ==> !(s[i] == '-' && s[i + 1] == '-')
  }

  /**
   * Reference reading of the global replace as a left-to-right scan that
   * remembers whether the previous character was white space.
   */
  function HyphenateScan(s: string, inRun: bool): string
    decreases |s|
  {
    if s == [] then []
    else if IsWhitespace(s[0]) then (if inRun then [] else "-") + HyphenateScan(s[1..], true)
    else [s[0]] + HyphenateScan(s[1..], false)
  }

  /** A leading white-space run is absorbed by a run already in progress. */
  lemma {:induction false} ScanSkipsRun(s: string)
    ensures HyphenateScan(s, true) == HyphenateScan(TrimStart(s), true)
    decreases |s|
  {
    if |s| > 0 && IsWhitespace(s[0]) {
      ScanSkipsRun(s[1..]);
    }
  }

  /** The recursive definition agrees with the scan reading of `/\s+/g`. */
  lemma {:induction false} HyphenateIsScan(s: string)
    ensures Hyphenate(s) == HyphenateScan(s, false)
    decreases |s|
  {
    if s != [] {
      if IsWhitespace(s[0]) {
        var t := TrimStart(s);
        HyphenateIsScan(t);
        ScanSkipsRun(s[1..]);
        assert TrimStart(s[1..]) == t;
        if t != [] {
          assert !IsWhitespace(t[0]);
          assert HyphenateScan(t, true) == HyphenateScan(t, false);
        }
      } else {
        HyphenateIsScan(s[1..]);
      }
    }
  }

  /** Removes every occurrence of `-`. */
  function RemoveHyphens(s: string): (r: string)
    decreases |s|
  {
    if s == [] then [] else (if s[0] == '-' then [] else [s[0]]) + RemoveHyphens(s[1..])
  }

  /** Removes every white-space character. */
  function RemoveWhitespace(s: string): (r: string)
    decreases |s|
  {
    if s == [] then [] else (if IsWhitespace(s[0]) then [] else [s[0]]) + RemoveWhitespace(s[1..])
  }

  lemma {:induction false} RemoveWhitespaceTrimStart(s: string)
    ensures RemoveWhitespace(TrimStart(s)) == RemoveWhitespace(s)
    decreases |s|
  {
    if |s| > 0 && IsWhitespace(s[0]) {
      RemoveWhitespaceTrimStart(s[1..]);
    }
  }

  /** Hyphenation keeps every other character, in order: only white space turns into `-`. */
  lemma {:induction false} HyphenateKeepsText(s: string)
    requires NoHyphen(s)
    ensures RemoveHyphens(Hyphenate(s)) == RemoveWhitespace(s)
    decreases |s|
  {
    if s != [] {
      if IsWhitespace(s[0]) {
        var t := TrimStart(s);
        assert NoHyphen(t) by {
          forall i | 0 <= i < |t| ensures t[i] != '-' {
            assert t[i] == s[|s| - |t| + i];
          }
        }
        HyphenateKeepsText(t);
        RemoveWhitespaceTrimStart(s);
        assert RemoveWhitespace(s) == RemoveWhitespace(s[1..]);
        RemoveWhitespaceTrimStart(s[1..]);
        assert TrimStart(s[1..]) == t;
      } else {
        HyphenateKeepsText(s[1..]);
        assert Hyphenate(s)[1..] == Hyphenate(s[1..]);
      }
    }
  }

  /** Without hyphens in the input, two runs are always separated by a kept character. */
  lemma {:induction false} HyphenateNoDoubleHyphen(s: string)
    requires NoHyphen(s)
    ensures NoDoubleHyphen(Hyphenate(s))
    decreases |s|
  {
    if s != [] {
      var r := Hyphenate(s);
      if IsWhitespace(s[0]) {
        var t := TrimStart(s);
        assert NoHyphen(t) by {
          forall i | 0 <= i < |t| ensures t[i] != '-' {
            assert t[i] == s[|s| - |t| + i];
          }
        }
        HyphenateNoDoubleHyphen(t);
        var h := Hyphenate(t);
        assert r == "-" + h;
        assert h != [] ==> h[0] == t[0] && t[0] != '-';
        forall i | 0 <= i < |r| - 1 ensures !(r[i] == '-' && r[i + 1] == '-') {
          if i > 0 {
            assert r[i] == h[i - 1] && r[i + 1] == h[i];
          }
        }
      } else {
        HyphenateNoDoubleHyphen(s[1..]);
        var h := Hyphenate(s[1..]);
        assert r == [s[0]] + h;
        forall i | 0 <= i < |r| - 1 ensures !(r[i] == '-' && r[i + 1] == '-') {
          if i > 0 {
            assert r[i] == h[i - 1] && r[i + 1] == h[i];
          }
        }
      }
    }
  }

  /** Hyphenating lower-case letters, digits and white space yields slug text. */
  lemma {:induction false} HyphenateSlugText(s: string)
    requires forall i :: 0 <= i < |s| ==> IsAsciiLower(s[i]) || IsDigit(s[i]) || IsWhitespace(s[i])
    ensures IsSlugText(Hyphenate(s))
    decreases |s|
  {
    if s != [] {
      if IsWhitespace(s[0]) {
        var t := TrimStart(s);
        assert forall i :: 0 <= i < |t| ==> t[i] == s[|s| - |t| + i];
        HyphenateSlugText(t);
      } else {
        HyphenateSlugText(s[1..]);
      }
    }
  }

  /**
   * The base slug holds only `a-z`, `0-9` and `-`, never two adjacent
   * hyphens, and the final `trim()` changes nothing: a leading or trailing
   * white-space run of the title survives as a leading or trailing `-`.
   */
  lemma BaseSlugShape(title: string)
    ensures IsSlugText(BaseSlug(title))
    ensures NoDoubleHyphen(BaseSlug(title))
    ensures BaseSlug(title) == Hyphenate(StripDisallowed(Lower(title)))
    ensures RemoveHyphens(BaseSlug(title)) == RemoveWhitespace(StripDisallowed(Lower(title)))
  {
    var s := StripDisallowed(Lower(title));
    StrippedLower(title);
    HyphenateSlugText(s);
    HyphenateNoDoubleHyphen(s);
    HyphenateKeepsText(s);
    TrimOfTrimmed(Hyphenate(s));
  }

  /** After lower-casing and stripping, only `a-z`, `0-9` and white space remain. */
  lemma StrippedLower(title: string)
    ensures var s := StripDisallowed(Lower(title));
      && (forall i :: 0 <= i < |s| ==> IsAsciiLower(s[i]) || IsDigit(s[i]) || IsWhitespace(s[i]))
      && NoHyphen(s)
  {
    var s := StripDisallowed(Lower(title));
    assert forall i :: 0 <= i < |s| ==> !IsAsciiUpper(s[i]) && Kept(s[i]);
  }

  lemma {:induction false} StripAppend(a: string, b: string)
    ensures StripDisallowed(a + b) == StripDisallowed(a) + StripDisallowed(b)
    decreases |a|
  {
    if a == [] {
      assert a + b == b;
    } else {
      assert (a + b)[0] == a[0] && (a + b)[1..] == a[1..] + b;
      StripAppend(a[1..], b);
    }
  }

  /** A scan over `a + b` splits at `a` when `a` ends outside a white-space run. */
  lemma {:induction false} ScanAppend(a: string, b: string, inRun: bool)
    requires a != [] && !IsWhitespace(a[|a| - 1])
    ensures HyphenateScan(a + b, inRun) == HyphenateScan(a, inRun) + HyphenateScan(b, false)
    decreases |a|
  {
    assert (a + b)[0] == a[0] && (a + b)[1..] == a[1..] + b;
    if |a| > 1 {
      ScanAppend(a[1..], b, IsWhitespace(a[0]));
    }
  }

  /** Characters every one of which the filter keeps pass through unchanged. */
  lemma {:induction false} StripKeepsKept(s: string)
    requires forall i :: 0 <= i < |s| ==> Kept(s[i])
    ensures StripDisallowed(s) == s
    decreases |s|
  {
    if s != [] {
      StripKeepsKept(s[1..]);
    }
  }

  /** Characters none of which the filter keeps disappear. */
  lemma {:induction false} StripDropsAll(s: string)
    requires forall i :: 0 <= i < |s| ==> !Kept(s[i])
    ensures StripDisallowed(s) == []
    decreases |s|
  {
    if s != [] {
      StripDropsAll(s[1..]);
    }
  }

  /** Text without white space is copied by the scan. */
  lemma {:induction false} ScanCopiesWords(s: string, inRun: bool)
    requires NoWhitespace(s)
    ensures HyphenateScan(s, inRun) == s
    decreases |s|
  {
    if s != [] {
      ScanCopiesWords(s[1..], false);
    }
  }

  // The worked example is assembled from its pieces "Hello" "," " World" "!"
  // " 2025": the verifier does not evaluate these functions on a long literal.

  lemma ExampleLower(a: string, p: string, b: string, q: string, c: string)
    requires a == "Hello" && p == "," && b == " World" && q == "!" && c == " 2025"
    ensures Lower(a + p + b + q + c) == "hello" + p + " world" + q + c
  {
    LowerOfAscii(a);
    LowerOfAscii(p);
    LowerOfAscii(b);
    LowerOfAscii(q);
    LowerOfAscii(c);
    assert Lower(a) == "hello" && Lower(p) == p && Lower(b) == " world";
    assert Lower(q) == q && Lower(c) == c;
    LowerAppend(a, p);
    LowerAppend(a + p, b);
    LowerAppend(a + p + b, q);
    LowerAppend(a + p + b + q, c);
  }

  lemma ExampleStripPieces(a: string, p: string, b: string, q: string, c: string)
    requires forall i :: 0 <= i < |a| ==> Kept(a[i])
    requires forall i :: 0 <= i < |b| ==> Kept(b[i])
    requires forall i :: 0 <= i < |c| ==> Kept(c[i])
    requires forall i :: 0 <= i < |p| ==> !Kept(p[i])
    requires forall i :: 0 <= i < |q| ==> !Kept(q[i])
    ensures StripDisallowed(a + p + b + q + c) == a + b + c
  {
    StripKeepsKept(a);
    StripDropsAll(p);
    StripKeepsKept(b);
    StripDropsAll(q);
    StripKeepsKept(c);
    StripAppend(a, p);
    assert StripDisallowed(a + p) == a;
    StripAppend(a + p, b);
    assert StripDisallowed(a + p + b) == a + b;
    StripAppend(a + p + b, q);
    assert StripDisallowed(a + p + b + q) == a + b;
    StripAppend(a + p + b + q, c);
  }

  lemma ExampleStrip(a: string, p: string, b: string, q: string, c: string)
    requires a == "hello" && p == "," && b == " world" && q == "!" && c == " 2025"
    ensures StripDisallowed(a + p + b + q + c) == a + b + c
  {
    ExampleStripPieces(a, p, b, q, c);
  }

  lemma ExampleScanPieces(a: string, b: string, c: string)
    requires a != [] && NoWhitespace(a)
    requires |b| > 1 && IsWhitespace(b[0]) && NoWhitespace(b[1..])
    requires |c| > 1 && IsWhitespace(c[0]) && NoWhitespace(c[1..])
    ensures HyphenateScan(a + b + c, false) == a + "-" + b[1..] + "-" + c[1..]
  {
    ScanCopiesWords(a, false);
    ScanCopiesWords(b[1..], true);
    ScanCopiesWords(c[1..], true);
    assert HyphenateScan(b, false) == "-" + b[1..];
    assert HyphenateScan(c, false) == "-" + c[1..];
    ScanAppend(b, c, false);
    assert a + b + c == a + (b + c);
    ScanAppend(a, b + c, false);
  }

  lemma ExampleHyphenate(a: string, b: string, c: string)
    requires a == "hello" && b == " world" && c == " 2025"
    ensures Hyphenate(a + b + c) == "hello-world-2025"
  {
    ExampleScanPieces(a, b, c);
    HyphenateIsScan(a + b + c);
    assert a + "-" + b[1..] + "-" + c[1..] == "hello-world-2025";
  }

  /** Worked example: the title "Hello, World! 2025" gives the base slug "hello-world-2025". */
  lemma BaseSlugExample(a: string, p: string, b: string, q: string, c: string)
    requires a == "Hello" && p == "," && b == " World" && q == "!" && c == " 2025"
    ensures a + p + b + q + c == "Hello, World! 2025"
    ensures BaseSlug(a + p + b + q + c) == "hello-world-2025"
  {
    var title := a + p + b + q + c;
    ExampleLower(a, p, b, q, c);
    var h, w := "hello", " world";
    ExampleStrip(h, p, w, q, c);
    ExampleHyphenate(h, w, c);
    BaseSlugShape(title);
  }

  /** The `k`-th candidate probed: `base` first, then `base-1`, `base-2`, ... */
  function Candidate(base: string, k: nat): string {
    if k == 0 then base else base + "-" + NatToString(k)
  }

  /** Different probe numbers give different candidates. */
  lemma CandidateInjective(base: string, i: nat, j: nat)
    requires Candidate(base, i) == Candidate(base, j)
    ensures i == j
  {
    if i != 0 && j != 0 {
      var n := |base| + 1;
      assert NatToString(i) == Candidate(base, i)[n..];
      assert NatToString(j) == Candidate(base, j)[n..];
      NatToStringInjective(i, j);
    }
  }

  /** Every probed candidate of a base slug is slug text, and so is left alone by the schema's `lowercase` setter. */
  lemma {:induction false} CandidateIsSlugText(base: string, k: nat)
    requires IsSlugText(base)
    ensures IsSlugText(Candidate(base, k))
    ensures Lower(Candidate(base, k)) == Candidate(base, k)
  {
    var c := Candidate(base, k);
    if k != 0 {
      var digits := NatToString(k);
      assert c == base + "-" + digits;
      forall i | 0 <= i < |c| ensures IsAsciiLower(c[i]) || IsDigit(c[i]) || c[i] == '-' {
        if i > |base| {
          assert c[i] == digits[i - |base| - 1];
        }
      }
    }
    LowerOfSlugChars(c);
  }

  /**
   * `slug` is the first free candidate of `base`, found by the `probes`-th
   * probe: every earlier candidate is taken.
   */
  predicate FirstFree(base: string, existing: set<string>, slug: string, probes: nat) {
    && probes >= 1
    && slug == Candidate(base, probes - 1)
    && slug !in existing
    && forall j :: 0 <= j < probes - 1 ==> Candidate(base, j) in existing
  }

  /** There is only one first free candidate. */
  lemma FirstFreeUnique(base: string, existing: set<string>, s1: string, p1: nat, s2: string, p2: nat)
    requires FirstFree(base, existing, s1, p1) && FirstFree(base, existing, s2, p2)
    ensures s1 == s2 && p1 == p2
  {
  }

  /** A free base slug is taken as is, on the first probe. */
  lemma FirstFreeOfFreeBase(base: string, existing: set<string>, slug: string, probes: nat)
    requires base !in existing && FirstFree(base, existing, slug, probes)
    ensures slug == base && probes == 1
  {
    FirstFreeUnique(base, existing, slug, probes, base, 1);
  }

  /**
   * The uniqueness loop: probes `Candidate(base, 0)`, `Candidate(base, 1)`, ...
   * against the stored slugs and returns the first free one together with the
   * number of probes made, which is at most `|existing| + 1`.
   */
  method UniqueSlug(base: string, existing: set<string>) returns (slug: string, probes: nat)
    ensures FirstFree(base, existing, slug, probes)
    ensures probes <= |existing| + 1
    ensures base !in existing ==> slug == base && probes == 1
  {
    slug := base;
    var counter := 1;
    var n := 0;
    ghost var tried: set<string> := {};
    while slug in existing
      invariant counter == n + 1
      invariant slug == Candidate(base, n)
      invariant tried == set j | 0 <= j < n :: Candidate(base, j)
      invariant |tried| == n
      invariant tried <= existing
      invariant |tried| <= |existing|
      invariant forall j :: 0 <= j < n ==> Candidate(base, j) in existing
      decreases |existing| - |tried|
    {
      assert slug !in tried by {
        forall j | 0 <= j < n ensures Candidate(base, j) != slug {
          if Candidate(base, j) == slug {
            CandidateInjective(base, j, n);
          }
        }
      }
      tried := tried + {slug};
      slug := base + "-" + NatToString(counter);
      counter := counter + 1;
      n := n + 1;
      assert tried == set j | 0 <= j < n :: Candidate(base, j);
      SubsetCard(tried, existing);
    }
    probes := n + 1;
  }

  lemma SubsetCard<T>(a: set<T>, b: set<T>)
    requires a <= b
    ensures |a| <= |b|
  {
    assert b == a + (b - a);
  }
}
