/**
 * The string helpers of the storefront: `slugify`, `capitalize` and
 * `truncate`. A string is a sequence of characters; lengths count
 * characters.
 *
 * `slugify` is a pipeline of five steps, each modelled on its own:
 * lower-case, trim, replace white-space runs by `-`, drop everything
 * outside `[A-Za-z0-9_-]`, and collapse hyphen runs into one `-`.
 */
module StringUtils {

  /**
   * White space as JavaScript defines it: the set that both `\s` in a
   * regular expression and `String.prototype.trim` use (white space plus
   * line terminators).
   */
  predicate IsSpace(c: char) {
    var n := c as int;
    if n < 0xA0 then (0x09 <= n <= 0x0D) || n == 0x20
    else
      || n == 0xA0 || n == 0x1680
      || (0x2000 <= n <= 0x200A)
      || n == 0x2028 || n == 0x2029 || n == 0x202F || n == 0x205F
      || n == 0x3000 || n == 0xFEFF
  }

  predicate IsUpper(c: char) { 'A' <= c <= 'Z' }

  predicate IsLower(c: char) { 'a' <= c <= 'z' }

  predicate IsDigit(c: char) { '0' <= c <= '9' }

  /** `\w` of a regular expression without the `u` flag: `[A-Za-z0-9_]`. */
  predicate IsWordChar(c: char) {
    IsUpper(c) || IsLower(c) || IsDigit(c) || c == '_'
  }

  /** The characters a slug is made of: `[a-z0-9_-]`. */
  predicate IsSlugChar(c: char) {
    IsLower(c) || IsDigit(c) || c == '_' || c == '-'
  }

  predicate NoSpace(s: string) {
    forall k | 0 <= k < |s| :: !IsSpace(s[k])
  }

  predicate AllSpace(s: string) {
    forall k | 0 <= k < |s| :: IsSpace(s[k])
  }

  predicate AllSlugChars(s: string) {
    forall k | 0 <= k < |s| :: IsSlugChar(s[k])
  }

  /** `s` never holds two hyphens next to each other. */
  predicate NoDoubleHyphen(s: string) {
    forall k | 0 <= k < |s| - 1 :: !(s[k] == '-' && s[k + 1] == '-')
  }

  /** A well-formed slug: slug characters only, no `--`. */
  predicate IsSlug(s: string) {
    AllSlugChars(s) && NoDoubleHyphen(s)
  }

  // ---------------------------------------------------------------------
  // Lower-casing
  // ---------------------------------------------------------------------

  /** KELVIN SIGN, whose lower case is the ASCII letter `k`. */
  const Kelvin: char := 0x212A as char

  /** LATIN CAPITAL LETTER I WITH DOT ABOVE, whose lower case is `i` followed by U+0307. */
  const CapitalIWithDot: char := 0x0130 as char

  const CombiningDotAbove: char := 0x0307 as char

  /**
   * The lower case of one character. ASCII capitals map to ASCII small
   * letters, and the two non-ASCII characters whose lower case contains
   * an ASCII letter are mapped as Unicode maps them. Every other
   * character is kept: non-ASCII letters are outside `[A-Za-z0-9_-]` and
   * outside white space both before and after lower-casing, so keeping
   * them does not change what `slugify` returns.
   */
  function LowerChar(c: char): (r: string)
    ensures |r| >= 1
    ensures forall k | 0 <= k < |r| :: !IsUpper(r[k])
    ensures forall k | 0 <= k < |r| :: IsSpace(r[k]) <==> IsSpace(c)
    ensures IsUpper(c) ==> r == [(c as int + 32) as char]
    ensures IsSlugChar(c) ==> r == [c]
  {
    if IsUpper(c) then [(c as int + 32) as char]
    else if c == Kelvin then ['k']
    else if c == CapitalIWithDot then ['i', CombiningDotAbove]
    else [c]
  }

  /** `String.prototype.toLowerCase`, character by character. */
  function ToLower(s: string): (r: string)
    ensures forall k | 0 <= k < |r| :: !IsUpper(r[k])
    decreases |s|
  {
    if s == [] then [] else LowerChar(s[0]) + ToLower(s[1..])
  }

  lemma {:induction false} ToLowerAppend(a: string, b: string)
    ensures ToLower(a + b) == ToLower(a) + ToLower(b)
    decreases |a|
  {
    if a == [] {
      assert a + b == b;
    } else {
      assert (a + b)[1..] == a[1..] + b;
      ToLowerAppend(a[1..], b);
    }
  }

  /** Lower-casing keeps white space where it is and adds none. */
  lemma {:induction false} ToLowerAllSpace(s: string)
    ensures AllSpace(s) <==> AllSpace(ToLower(s))
    decreases |s|
  {
    if s != [] {
      ToLowerAllSpace(s[1..]);
      var l := LowerChar(s[0]);
      assert ToLower(s) == l + ToLower(s[1..]);
      if AllSpace(ToLower(s)) {
        assert ToLower(s)[0] == l[0];
        assert IsSpace(l[0]);
        forall k | 0 <= k < |ToLower(s[1..])|
          ensures IsSpace(ToLower(s[1..])[k])
        {
          assert ToLower(s)[|l| + k] == ToLower(s[1..])[k];
        }
        forall k | 0 <= k < |s|
          ensures IsSpace(s[k])
        {
          if k > 0 {
            assert s[k] == s[1..][k - 1];
          }
        }
      }
      if AllSpace(s) {
        assert AllSpace(s[1..]) by {
          forall k | 0 <= k < |s[1..]|
            ensures IsSpace(s[1..][k])
          {
            assert s[1..][k] == s[k + 1];
          }
        }
      }
    }
  }

  /** A slug is already lower case. */
  lemma {:induction false} ToLowerOfSlugChars(s: string)
    requires AllSlugChars(s)
    ensures ToLower(s) == s
    decreases |s|
  {
    if s != [] {
      assert AllSlugChars(s[1..]) by {
        forall k | 0 <= k < |s[1..]|
          ensures IsSlugChar(s[1..][k])
        {
          assert s[1..][k] == s[k + 1];
        }
      }
      ToLowerOfSlugChars(s[1..]);
      assert [s[0]] + s[1..] == s;
    }
  }

  // ---------------------------------------------------------------------
  // Trimming
  // ---------------------------------------------------------------------

  /** Drops the leading white space. */
  function TrimStart(s: string): (r: string)
    ensures |r| <= |s|
    ensures r == s[|s| - |r|..]
    ensures AllSpace(s[..|s| - |r|])
    ensures r == [] || !IsSpace(r[0])
    decreases |s|
  {
    if s != [] && IsSpace(s[0]) then
      var r := TrimStart(s[1..]);
      assert s[|s| - |r|..] == s[1..][|s| - 1 - |r|..];
      AllSpaceCons(s[0], s[1..][..|s| - 1 - |r|]);
      assert s[..|s| - |r|] == [s[0]] + s[1..][..|s| - 1 - |r|];
      r
    else s
  }

  /** Drops the trailing white space. */
  function TrimEnd(s: string): (r: string)
    ensures |r| <= |s|
    ensures r == s[..|r|]
    ensures AllSpace(s[|r|..])
    ensures r == [] || !IsSpace(r[|r| - 1])
    decreases |s|
  {
    if s != [] && IsSpace(s[|s| - 1]) then
      var init := s[..|s| - 1];
      var r := TrimEnd(init);
      assert s[..|r|] == init[..|r|];
      AllSpaceSnoc(init[|r|..], s[|s| - 1]);
      assert s[|r|..] == init[|r|..] + [s[|s| - 1]];
      r
    else s
  }

  lemma AllSpaceCons(c: char, s: string)
    requires IsSpace(c) && AllSpace(s)
    ensures AllSpace([c] + s)
  {
    assert forall k | 1 <= k < |s| + 1 :: ([c] + s)[k] == s[k - 1];
  }

  lemma AllSpaceSnoc(s: string, c: char)
    requires AllSpace(s) && IsSpace(c)
    ensures AllSpace(s + [c])
  {
    assert forall k | 0 <= k < |s| :: (s + [c])[k] == s[k];
  }

  /** `String.prototype.trim`. */
  function Trim(s: string): (r: string)
  {
    TrimEnd(TrimStart(s))
  }

  /**
   * `Trim(s)` is the slice of `s` left after removing white space at both
   * ends: what it dropped is all white space, and it neither starts nor
   * ends with white space.
   */
  lemma TrimSpec(s: string)
    ensures exists i, j | 0 <= i <= j <= |s| :: Trim(s) == s[i..j] && AllSpace(s[..i]) && AllSpace(s[j..])
    ensures Trim(s) == [] || (!IsSpace(Trim(s)[0]) && !IsSpace(Trim(s)[|Trim(s)| - 1]))
  {
    TrimSlice(s);
    TrimEnds(s);
  }

  lemma TrimSlice(s: string)
    ensures exists i, j | 0 <= i <= j <= |s| :: Trim(s) == s[i..j] && AllSpace(s[..i]) && AllSpace(s[j..])
  {
    var t := TrimStart(s);
    var i := |s| - |t|;
    var j := i + |TrimEnd(t)|;
    SliceOfSuffix(s, i, j);
    assert Trim(s) == s[i..j] && AllSpace(s[..i]) && AllSpace(s[j..]);
  }

  /** Cutting a suffix of `s` again is cutting `s`. */
  lemma SliceOfSuffix(s: string, i: nat, j: nat)
    requires i <= j <= |s|
    ensures s[i..][..j - i] == s[i..j]
    ensures s[i..][j - i..] == s[j..]
  {
  }

  lemma TrimEnds(s: string)
    ensures Trim(s) == [] || (!IsSpace(Trim(s)[0]) && !IsSpace(Trim(s)[|Trim(s)| - 1]))
  {
    var t := TrimStart(s);
    TrimEndOfTrimStart(t);
    var r := TrimEnd(t);
    assert Trim(s) == r;
    assert r == [] || !IsSpace(r[0]);
    assert r == [] || !IsSpace(r[|r| - 1]);
  }

  /** A string with no white space at all is its own trim. */
  lemma TrimNoSpace(s: string)
    requires NoSpace(s)
    ensures Trim(s) == s
  {
  }

  /** The trimmed string is empty exactly when the whole string is white space. */
  lemma TrimEmptyIffAllSpace(s: string)
    ensures Trim(s) == [] <==> AllSpace(s)
  {
  }

  lemma {:induction false} TrimStartIdempotent(s: string)
    ensures TrimStart(TrimStart(s)) == TrimStart(s)
  {
  }

  /** Lower-casing and trimming commute. */
  lemma {:induction false} ToLowerTrimStart(s: string)
    ensures ToLower(TrimStart(s)) == TrimStart(ToLower(s))
    decreases |s|
  {
    if s != [] {
      var l := LowerChar(s[0]);
      if IsSpace(s[0]) {
        assert l == [s[0]];
        ToLowerTrimStart(s[1..]);
        assert ToLower(s) == [s[0]] + ToLower(s[1..]);
        assert ToLower(s)[1..] == ToLower(s[1..]);
      } else {
        assert !IsSpace(l[0]);
        assert ToLower(s)[0] == l[0];
      }
    }
  }

  lemma {:induction false} ToLowerTrimEnd(s: string)
    ensures ToLower(TrimEnd(s)) == TrimEnd(ToLower(s))
    decreases |s|
  {
    if s != [] {
      var init, last := s[..|s| - 1], s[|s| - 1];
      assert s == init + [last];
      ToLowerSnoc(init, last);
      var l := LowerChar(last);
      if IsSpace(last) {
        assert l == [last];
        TrimEndSpace(init, last);
        TrimEndSpace(ToLower(init), last);
        ToLowerTrimEnd(init);
      } else {
        assert !IsSpace(l[|l| - 1]);
        TrimEndWord(s);
        TrimEndWord(ToLower(init) + l);
      }
    }
  }

  /** Trailing white space is dropped by `TrimEnd`. */
  lemma TrimEndSpace(a: string, c: char)
    requires IsSpace(c)
    ensures TrimEnd(a + [c]) == TrimEnd(a)
  {
    assert (a + [c])[..|a|] == a;
  }

  /** A string that ends in a non-space character is its own `TrimEnd`. */
  lemma TrimEndWord(t: string)
    requires t != [] && !IsSpace(t[|t| - 1])
    ensures TrimEnd(t) == t
  {
  }

  /** Lower-casing a string extended by one character. */
  lemma ToLowerSnoc(init: string, last: char)
    ensures ToLower(init + [last]) == ToLower(init) + LowerChar(last)
  {
    ToLowerAppend(init, [last]);
    ToLowerChar(last);
  }

  lemma ToLowerChar(c: char)
    ensures ToLower([c]) == LowerChar(c)
  {
    assert [c][1..] == [];
  }

  lemma ToLowerTrim(s: string)
    ensures ToLower(Trim(s)) == Trim(ToLower(s))
  {
    ToLowerTrimEnd(TrimStart(s));
    ToLowerTrimStart(s);
  }

  lemma {:induction false} TrimEndOfTrimStart(s: string)
    requires s == [] || !IsSpace(s[0])
    ensures TrimEnd(s) == [] || !IsSpace(TrimEnd(s)[0])
    ensures TrimStart(TrimEnd(s)) == TrimEnd(s)
  {
    var r := TrimEnd(s);
    if r != [] {
      assert r[0] == s[0];
    }
  }

  lemma TrimEndIdempotent(s: string)
    ensures TrimEnd(TrimEnd(s)) == TrimEnd(s)
  {
  }

  /** Trimming twice is trimming once. */
  lemma TrimIdempotent(s: string)
    ensures Trim(Trim(s)) == Trim(s)
  {
    var t := TrimStart(s);
    TrimEndOfTrimStart(t);
    TrimEndIdempotent(t);
  }

  // ---------------------------------------------------------------------
  // The remaining slugify steps
  // ---------------------------------------------------------------------

  /** `.replace(/\s+/g, '-')`: every maximal run of white space becomes one `-`. */
  function ReplaceSpaceRuns(s: string): (r: string)
    ensures NoSpace(r)
    ensures NoSpace(s) ==> r == s
    decreases |s|
  {
    if s == [] then []
    else if IsSpace(s[0]) then
      var rest := ReplaceSpaceRuns(TrimStart(s[1..]));
      NoSpaceCons('-', rest);
      ['-'] + rest
    else
      var rest := ReplaceSpaceRuns(s[1..]);
      NoSpaceCons(s[0], rest);
      if NoSpace(s) then NoSpaceTail(s); [s[0]] + rest else [s[0]] + rest
  }

  lemma NoSpaceCons(c: char, s: string)
    requires !IsSpace(c) && NoSpace(s)
    ensures NoSpace([c] + s)
  {
    assert forall k | 1 <= k < |s| + 1 :: ([c] + s)[k] == s[k - 1];
  }

  lemma NoSpaceTail(s: string)
    requires s != [] && NoSpace(s)
    ensures NoSpace(s[1..])
  {
    assert forall k | 0 <= k < |s| - 1 :: s[1..][k] == s[k + 1];
  }

  /** `.replace(/[^\w-]+/g, '')`: keeps `[A-Za-z0-9_-]` and drops the rest. */
  function DropNonWord(s: string): (r: string)
    ensures forall k | 0 <= k < |r| :: IsWordChar(r[k]) || r[k] == '-'
    ensures (forall k | 0 <= k < |s| :: IsWordChar(s[k]) || s[k] == '-') ==> r == s
    decreases |s|
  {
    if s == [] then []
    else if IsWordChar(s[0]) || s[0] == '-' then [s[0]] + DropNonWord(s[1..])
    else DropNonWord(s[1..])
  }

  /** Drops the leading hyphens. */
  function DropHyphens(s: string): (r: string)
    ensures |r| <= |s|
    ensures r == s[|s| - |r|..]
    ensures r == [] || r[0] != '-'
    decreases |s|
  {
    if s != [] && s[0] == '-' then DropHyphens(s[1..]) else s
  }

  /**
   * `.replace(/--+/g, '-')`: every run of two or more hyphens becomes one.
   * A single hyphen is left alone, so this is the same as turning every
   * maximal hyphen run into one `-`.
   */
  function CollapseHyphens(s: string): (r: string)
    ensures NoDoubleHyphen(r)
    ensures r == [] <==> s == []
    ensures s != [] ==> r[0] == s[0]
    decreases |s|
  {
    if s == [] then []
    else if s[0] == '-' then ['-'] + CollapseHyphens(DropHyphens(s[1..]))
    else [s[0]] + CollapseHyphens(s[1..])
  }

  /** Collapsing hyphens adds no character that is not already in the input. */
  lemma {:induction false} CollapseHyphensChars(s: string)
    requires AllSlugChars(s)
    ensures AllSlugChars(CollapseHyphens(s))
    decreases |s|
  {
    if s != [] {
      var tail := s[1..];
      SlugCharsSuffix(s, 1);
      if s[0] == '-' {
        var rest := DropHyphens(tail);
        SlugCharsSuffix(tail, |tail| - |rest|);
        CollapseHyphensChars(rest);
        SlugCharsCons('-', CollapseHyphens(rest));
      } else {
        CollapseHyphensChars(tail);
        SlugCharsCons(s[0], CollapseHyphens(tail));
      }
    }
  }

  lemma SlugCharsSuffix(s: string, i: int)
    requires AllSlugChars(s) && 0 <= i <= |s|
    ensures AllSlugChars(s[i..])
  {
    forall k | 0 <= k < |s[i..]|
      ensures IsSlugChar(s[i..][k])
    {
      assert s[i..][k] == s[i + k];
    }
  }

  lemma SlugCharsCons(c: char, t: string)
    requires IsSlugChar(c) && AllSlugChars(t)
    ensures AllSlugChars([c] + t)
  {
    forall k | 0 <= k < |[c] + t|
      ensures IsSlugChar(([c] + t)[k])
    {
      if k > 0 {
        assert ([c] + t)[k] == t[k - 1];
      }
    }
  }

  /** `s` with every hyphen removed. */
  function NonHyphens(s: string): (r: string)
    ensures forall k | 0 <= k < |r| :: r[k] != '-'
    decreases |s|
  {
    if s == [] then []
    else if s[0] == '-' then NonHyphens(s[1..])
    else [s[0]] + NonHyphens(s[1..])
  }

  /** Dropping leading hyphens leaves the other characters as they were. */
  lemma {:induction false} NonHyphensDrop(s: string)
    ensures NonHyphens(DropHyphens(s)) == NonHyphens(s)
    decreases |s|
  {
    if s != [] && s[0] == '-' {
      NonHyphensDrop(s[1..]);
    }
  }

  /** Collapsing removes hyphens only: with every hyphen removed, input and output agree. */
  lemma {:induction false} CollapseHyphensKeepsOthers(s: string)
    ensures NonHyphens(CollapseHyphens(s)) == NonHyphens(s)
    decreases |s|
  {
    if s != [] {
      var c := CollapseHyphens(s);
      if s[0] == '-' {
        var rest := DropHyphens(s[1..]);
        CollapseHyphensKeepsOthers(rest);
        NonHyphensDrop(s[1..]);
        assert c == ['-'] + CollapseHyphens(rest);
        assert c[0] == '-' && c[1..] == CollapseHyphens(rest);
      } else {
        CollapseHyphensKeepsOthers(s[1..]);
        assert c == [s[0]] + CollapseHyphens(s[1..]);
        assert c[0] == s[0] && c[1..] == CollapseHyphens(s[1..]);
      }
    }
  }

  predicate AllHyphens(s: string) {
    forall k | 0 <= k < |s| :: s[k] == '-'
  }

  predicate NoHyphen(s: string) {
    forall k | 0 <= k < |s| :: s[k] != '-'
  }

  /** Dropping the leading hyphens of a hyphen run followed by a non-hyphen leaves exactly what follows. */
  lemma {:induction false} DropHyphensRun(w: string, t: string)
    requires AllHyphens(w)
    requires t == [] || t[0] != '-'
    ensures DropHyphens(w + t) == t
    decreases |w|
  {
    if w == [] {
      assert w + t == t;
    } else {
      assert (w + t)[0] == '-';
      assert (w + t)[1..] == w[1..] + t;
      assert AllHyphens(w[1..]) by {
        forall k | 0 <= k < |w[1..]|
          ensures w[1..][k] == '-'
        {
          assert w[1..][k] == w[k + 1];
        }
      }
      DropHyphensRun(w[1..], t);
    }
  }

  /** A maximal run of hyphens at the front, of any length, becomes exactly one `-`. */
  lemma CollapseHyphenRun(w: string, t: string)
    requires w != [] && AllHyphens(w)
    requires t == [] || t[0] != '-'
    ensures CollapseHyphens(w + t) == ['-'] + CollapseHyphens(t)
  {
    var s := w + t;
    assert s[0] == '-';
    assert s[1..] == w[1..] + t;
    assert AllHyphens(w[1..]) by {
      forall k | 0 <= k < |w[1..]|
        ensures w[1..][k] == '-'
      {
        assert w[1..][k] == w[k + 1];
      }
    }
    DropHyphensRun(w[1..], t);
  }

  /** A first character that is not a hyphen is copied. */
  lemma CollapseHyphensHead(a: string, b: string)
    requires a != [] && a[0] != '-'
    ensures CollapseHyphens(a + b) == [a[0]] + CollapseHyphens(a[1..] + b)
  {
    assert (a + b)[0] == a[0];
    assert (a + b)[1..] == a[1..] + b;
  }

  /** A prefix without hyphens passes through the collapse unchanged. */
  lemma {:induction false} CollapseHyphensAfterWord(a: string, b: string)
    requires NoHyphen(a)
    ensures CollapseHyphens(a + b) == a + CollapseHyphens(b)
    decreases |a|
  {
    if a == [] {
      assert a + b == b;
    } else {
      assert NoHyphen(a[1..]) by {
        forall k | 0 <= k < |a[1..]|
          ensures a[1..][k] != '-'
        {
          assert a[1..][k] == a[k + 1];
        }
      }
      calc {
        CollapseHyphens(a + b);
        { CollapseHyphensHead(a, b); }
        [a[0]] + CollapseHyphens(a[1..] + b);
        { CollapseHyphensAfterWord(a[1..], b); }
        [a[0]] + (a[1..] + CollapseHyphens(b));
        { HeadTail(a, CollapseHyphens(b)); }
        a + CollapseHyphens(b);
      }
    }
  }

  /**
   * A word, then a maximal hyphen run, then the rest: the word is kept and
   * the run, however long, becomes exactly one `-`.
   */
  lemma CollapseHyphenRunAfterWord(a: string, w: string, t: string)
    requires NoHyphen(a)
    requires w != [] && AllHyphens(w)
    requires t == [] || t[0] != '-'
    ensures CollapseHyphens(a + w + t) == a + ['-'] + CollapseHyphens(t)
  {
    calc {
      CollapseHyphens(a + w + t);
      { assert a + w + t == a + (w + t); }
      CollapseHyphens(a + (w + t));
      { CollapseHyphensAfterWord(a, w + t); }
      a + CollapseHyphens(w + t);
      { CollapseHyphenRun(w, t); }
      a + (['-'] + CollapseHyphens(t));
      a + ['-'] + CollapseHyphens(t);
    }
  }

  /** A string without `--` is left alone. */
  lemma {:induction false} CollapseHyphensFixpoint(s: string)
    requires NoDoubleHyphen(s)
    ensures CollapseHyphens(s) == s
    decreases |s|
  {
    if s != [] {
      assert NoDoubleHyphen(s[1..]) by {
        forall k | 0 <= k < |s[1..]| - 1
          ensures !(s[1..][k] == '-' && s[1..][k + 1] == '-')
        {
          assert s[1..][k] == s[k + 1] && s[1..][k + 1] == s[k + 2];
        }
      }
      if s[0] == '-' {
        assert s[1..] == [] || s[1..][0] != '-';
        assert DropHyphens(s[1..]) == s[1..];
      }
      CollapseHyphensFixpoint(s[1..]);
      assert [s[0]] + s[1..] == s;
    }
  }

  /**
   * `slugify(text)`: lower-case, trim, turn white-space runs into `-`,
   * drop characters outside `[\w-]`, collapse repeated hyphens.
   */
  function Slugify(text: string): (r: string)
    ensures IsSlug(r)
  {
    var lowered := ToLower(text);
    var trimmed := Trim(lowered);
    var dashed := ReplaceSpaceRuns(trimmed);
    var kept := DropNonWord(dashed);
    NoUpperSlice(lowered, |lowered| - |TrimStart(lowered)|, |lowered|);
    NoUpperSlice(TrimStart(lowered), 0, |trimmed|);
    ReplaceSpaceRunsNoUpper(trimmed);
    DropNonWordSlugChars(dashed);
    CollapseHyphensChars(kept);
    CollapseHyphens(kept)
  }

  predicate NoUpper(s: string) {
    forall k | 0 <= k < |s| :: !IsUpper(s[k])
  }

  lemma NoUpperSlice(s: string, i: int, j: int)
    requires 0 <= i <= j <= |s|
    requires NoUpper(s)
    ensures NoUpper(s[i..j])
  {
    assert forall k | 0 <= k < j - i :: s[i..j][k] == s[i + k];
  }

  lemma {:induction false} ReplaceSpaceRunsNoUpper(s: string)
    requires NoUpper(s)
    ensures NoUpper(ReplaceSpaceRuns(s))
    decreases |s|
  {
    if s != [] {
      var tail := s[1..];
      NoUpperSlice(s, 1, |s|);
      ReplaceSpaceRunsStep(s);
      if IsSpace(s[0]) {
        var rest := TrimStart(tail);
        NoUpperSlice(tail, |tail| - |rest|, |tail|);
        ReplaceSpaceRunsNoUpper(rest);
        NoUpperCons('-', ReplaceSpaceRuns(rest));
      } else {
        ReplaceSpaceRunsNoUpper(tail);
        NoUpperCons(s[0], ReplaceSpaceRuns(tail));
      }
    }
  }

  /** One step of the white-space replacement: a leading run becomes `-`, any other first character is copied. */
  lemma ReplaceSpaceRunsStep(s: string)
    requires s != []
    ensures IsSpace(s[0]) ==> ReplaceSpaceRuns(s) == ['-'] + ReplaceSpaceRuns(TrimStart(s[1..]))
    ensures !IsSpace(s[0]) ==> ReplaceSpaceRuns(s) == [s[0]] + ReplaceSpaceRuns(s[1..])
  {
  }

  lemma NoUpperCons(c: char, s: string)
    requires !IsUpper(c) && NoUpper(s)
    ensures NoUpper([c] + s)
  {
    assert forall k | 1 <= k < |s| + 1 :: ([c] + s)[k] == s[k - 1];
  }

  lemma {:induction false} DropNonWordSlugChars(s: string)
    requires NoUpper(s)
    ensures AllSlugChars(DropNonWord(s))
    decreases |s|
  {
    if s != [] {
      NoUpperSlice(s, 1, |s|);
      DropNonWordSlugChars(s[1..]);
    }
  }

  /** Every character of a slug is one of `[a-z0-9_-]`. */
  lemma SlugifyCharset(text: string)
    ensures forall k | 0 <= k < |Slugify(text)| :: IsSlugChar(Slugify(text)[k])
  {
  }

  /** A slug never contains `--`. */
  lemma SlugifyNoDoubleHyphen(text: string)
    ensures forall k | 0 <= k < |Slugify(text)| - 1 :: !(Slugify(text)[k] == '-' && Slugify(text)[k + 1] == '-')
  {
  }

  /** Every step of the pipeline leaves a well-formed slug alone. */
  lemma SlugIsFixpoint(s: string)
    requires IsSlug(s)
    ensures Slugify(s) == s
  {
    ToLowerOfSlugChars(s);
    assert NoSpace(s);
    TrimNoSpace(s);
    assert ReplaceSpaceRuns(s) == s;
    assert DropNonWord(s) == s;
    CollapseHyphensFixpoint(s);
  }

  /** `slugify` is idempotent. */
  lemma SlugifyIdempotent(text: string)
    ensures Slugify(Slugify(text)) == Slugify(text)
  {
    SlugIsFixpoint(Slugify(text));
  }

  /** Trimming before slugifying changes nothing: `slugify` trims anyway. */
  lemma SlugifyOfTrim(text: string)
    ensures Slugify(Trim(text)) == Slugify(text)
  {
    ToLowerTrim(text);
    TrimIdempotent(ToLower(text));
  }

  /** The example of the doc comment. */
  lemma SlugifyExample()
    ensures Slugify("Hello World!") == "hello-world"
  {
    SlugifyExampleSteps("Hello World!");
  }

  /** The five steps of the example, one at a time; the text is a parameter so that each step is unfolded only where it is used. */
  lemma SlugifyExampleSteps(text: string)
    requires text == "Hello World!"
    ensures Slugify(text) == "hello-world"
  {
    calc {
      Slugify(text);
      CollapseHyphens(DropNonWord(ReplaceSpaceRuns(Trim(ToLower(text)))));
      { ExampleLowerStep(text); }
      CollapseHyphens(DropNonWord(ReplaceSpaceRuns(Trim("hello world!"))));
      { ExampleTrimStep("hello world!"); }
      CollapseHyphens(DropNonWord(ReplaceSpaceRuns("hello world!")));
      { ExampleSpaceStep("hello world!"); }
      CollapseHyphens(DropNonWord("hello-world!"));
      { ExampleDropStep("hello-world!"); }
      CollapseHyphens("hello-world");
      { CollapseHyphensFixpoint("hello-world"); }
      "hello-world";
    }
  }

  lemma ExampleLowerStep(text: string)
    requires text == "Hello World!"
    ensures ToLower(text) == "hello world!"
  {
    var b, d := "ello ", "orld!";
    ExampleCapitals(text, b, d);
    LowerTwoCapitals('H', b, 'W', d);
  }

  lemma ExampleCapitals(text: string, b: string, d: string)
    requires text == "Hello World!" && b == "ello " && d == "orld!"
    ensures text == ['H'] + b + ['W'] + d && "hello world!" == LowerChar('H') + b + LowerChar('W') + d
    ensures forall k | 0 <= k < |b| :: LowerFixed(b[k])
    ensures forall k | 0 <= k < |d| :: LowerFixed(d[k])
  {
  }

  /** Lower-casing a string whose only capitals are `c1` and `c2`. */
  lemma LowerTwoCapitals(c1: char, b: string, c2: char, d: string)
    requires IsUpper(c1) && IsUpper(c2)
    requires forall k | 0 <= k < |b| :: LowerFixed(b[k])
    requires forall k | 0 <= k < |d| :: LowerFixed(d[k])
    ensures ToLower([c1] + b + [c2] + d) == LowerChar(c1) + b + LowerChar(c2) + d
  {
    var ab := [c1] + b;
    ToLowerAppend(ab + [c2], d);
    ToLowerSnoc(ab, c2);
    ToLowerAppend([c1], b);
    ToLowerChar(c1);
    ToLowerUnchanged(b);
    ToLowerUnchanged(d);
  }

  /** Characters that lower-casing keeps as they are. */
  predicate LowerFixed(c: char) {
    !IsUpper(c) && c != Kelvin && c != CapitalIWithDot
  }

  lemma {:induction false} ToLowerUnchanged(s: string)
    requires forall k | 0 <= k < |s| :: LowerFixed(s[k])
    ensures ToLower(s) == s
    decreases |s|
  {
    if s != [] {
      assert forall k | 0 <= k < |s[1..]| :: s[1..][k] == s[k + 1];
      ToLowerUnchanged(s[1..]);
      assert [s[0]] + s[1..] == s;
    }
  }

  lemma ExampleTrimStep(lowered: string)
    requires lowered == "hello world!"
    ensures Trim(lowered) == lowered
  {
  }

  lemma ExampleSpaceStep(lowered: string)
    requires lowered == "hello world!"
    ensures ReplaceSpaceRuns(lowered) == "hello-world!"
  {
    var a, b := "hello", "world!";
    ExampleWords(lowered, a, b);
    ReplaceSingleSpace(a, b);
  }

  lemma ExampleWords(lowered: string, a: string, b: string)
    requires lowered == "hello world!" && a == "hello" && b == "world!"
    ensures NoSpace(a) && NoSpace(b)
    ensures lowered == a + [' '] + b && a + ['-'] + b == "hello-world!"
  {
  }

  /** One blank between two words becomes one hyphen. */
  lemma ReplaceSingleSpace(a: string, b: string)
    requires NoSpace(a) && NoSpace(b)
    ensures ReplaceSpaceRuns(a + [' '] + b) == a + ['-'] + b
  {
    calc {
      ReplaceSpaceRuns(a + [' '] + b);
      { assert a + [' '] + b == a + ([' '] + b); }
      ReplaceSpaceRuns(a + ([' '] + b));
      { ReplaceSpaceRunsAfterWord(a, [' '] + b); }
      a + ReplaceSpaceRuns([' '] + b);
      { ReplaceOneSpace(b); }
      a + (['-'] + b);
      a + ['-'] + b;
    }
  }

  /** One blank in front of a word becomes one hyphen. */
  lemma ReplaceOneSpace(w: string)
    requires NoSpace(w)
    ensures ReplaceSpaceRuns([' '] + w) == ['-'] + w
  {
    assert ([' '] + w)[1..] == w;
    assert TrimStart(w) == w by {
      if w != [] {
        assert !IsSpace(w[0]);
      }
    }
  }

  lemma ExampleDropStep(dashed: string)
    requires dashed == "hello-world!"
    ensures DropNonWord(dashed) == "hello-world"
  {
    var kept := "hello-world";
    assert forall k | 0 <= k < |kept| :: IsWordChar(kept[k]) || kept[k] == '-';
    calc {
      DropNonWord(dashed);
      { assert dashed == kept + "!"; }
      DropNonWord(kept + "!");
      { DropNonWordAppend(kept, "!"); }
      DropNonWord(kept) + DropNonWord("!");
      kept + DropNonWord("!");
      { assert DropNonWord("!") == []; }
      kept;
    }
  }

  /** A prefix without white space passes through the white-space step unchanged. */
  lemma {:induction false} ReplaceSpaceRunsAfterWord(a: string, b: string)
    requires NoSpace(a)
    ensures ReplaceSpaceRuns(a + b) == a + ReplaceSpaceRuns(b)
    decreases |a|
  {
    if a == [] {
      assert a + b == b;
    } else {
      NoSpaceTail(a);
      calc {
        ReplaceSpaceRuns(a + b);
        { ReplaceSpaceRunsHead(a, b); }
        [a[0]] + ReplaceSpaceRuns(a[1..] + b);
        { ReplaceSpaceRunsAfterWord(a[1..], b); }
        [a[0]] + (a[1..] + ReplaceSpaceRuns(b));
        { HeadTail(a, ReplaceSpaceRuns(b)); }
        a + ReplaceSpaceRuns(b);
      }
    }
  }

  lemma HeadTail(a: string, x: string)
    requires a != []
    ensures [a[0]] + (a[1..] + x) == a + x
  {
    assert a == [a[0]] + a[1..];
  }

  /** A first character that is not white space is copied. */
  lemma ReplaceSpaceRunsHead(a: string, b: string)
    requires a != [] && !IsSpace(a[0])
    ensures ReplaceSpaceRuns(a + b) == [a[0]] + ReplaceSpaceRuns(a[1..] + b)
  {
    assert a + b == [a[0]] + (a[1..] + b);
    ReplaceSpaceRunsCons(a[0], a[1..] + b);
  }

  /**
   * A maximal run of white space after a word becomes exactly one `-`:
   * the word is kept, and the rest is processed after the run.
   */
  lemma ReplaceSpaceRunAfterWord(a: string, w: string, b: string)
    requires NoSpace(a)
    requires w != [] && AllSpace(w)
    requires b == [] || !IsSpace(b[0])
    ensures ReplaceSpaceRuns(a + w + b) == a + ['-'] + ReplaceSpaceRuns(b)
  {
    assert a + w + b == a + (w + b);
    ReplaceSpaceRunsAfterWord(a, w + b);
    ReplaceSpaceRun(w, b);
  }

  /** A white-space run at the start becomes one `-`. */
  lemma ReplaceSpaceRun(w: string, b: string)
    requires w != [] && AllSpace(w)
    requires b == [] || !IsSpace(b[0])
    ensures ReplaceSpaceRuns(w + b) == ['-'] + ReplaceSpaceRuns(b)
  {
    var s := w + b;
    assert s[0] == w[0];
    assert s[1..] == w[1..] + b;
    assert AllSpace(w[1..]) by {
      forall k | 0 <= k < |w[1..]|
        ensures IsSpace(w[1..][k])
      {
        assert w[1..][k] == w[k + 1];
      }
    }
    TrimStartAfterSpace(w[1..], b);
  }

  /** Trimming white space off the front stops at the first other character. */
  lemma TrimStartAfterSpace(w: string, b: string)
    requires AllSpace(w)
    requires b == [] || !IsSpace(b[0])
    ensures TrimStart(w + b) == b
  {
    var s := w + b;
    var r := TrimStart(s);
    assert r == s[|w|..];
    assert s[|w|..] == b;
  }

  /** A character that is not white space passes through the white-space step. */
  lemma ReplaceSpaceRunsCons(c: char, s: string)
    requires !IsSpace(c)
    ensures ReplaceSpaceRuns([c] + s) == [c] + ReplaceSpaceRuns(s)
  {
    assert ([c] + s)[0] == c && ([c] + s)[1..] == s;
  }


  /** One character is kept exactly when it is in `[A-Za-z0-9_-]`; with `DropNonWordAppend` this pins the step down. */
  lemma DropNonWordChar(c: char)
    ensures IsWordChar(c) || c == '-' ==> DropNonWord([c]) == [c]
    ensures !IsWordChar(c) && c != '-' ==> DropNonWord([c]) == []
  {
    assert [c][1..] == [];
  }

  lemma {:induction false} DropNonWordAppend(a: string, b: string)
    ensures DropNonWord(a + b) == DropNonWord(a) + DropNonWord(b)
    decreases |a|
  {
    if a == [] {
      assert a + b == b;
    } else {
      assert (a + b)[0] == a[0];
      assert (a + b)[1..] == a[1..] + b;
      DropNonWordAppend(a[1..], b);
    }
  }

  // ---------------------------------------------------------------------
  // capitalize and truncate
  // ---------------------------------------------------------------------

  /** The upper case of one character (ASCII letters only). */
  function UpperChar(c: char): (r: char)
    ensures !IsLower(r)
    ensures IsLower(c) ==> IsUpper(r) && r as int == c as int - 32
    ensures !IsLower(c) ==> r == c
  {
    if IsLower(c) then (c as int - 32) as char else c
  }

  /** `capitalize(text)`: `text.charAt(0).toUpperCase() + text.slice(1)`. */
  function Capitalize(text: string): (r: string)
    ensures |r| == |text|
    ensures text == [] ==> r == []
    ensures text != [] ==> !IsLower(r[0]) && r[1..] == text[1..]
    ensures text != [] && IsLower(text[0]) ==> IsUpper(r[0]) && r[0] as int == text[0] as int - 32
    ensures text != [] && !IsLower(text[0]) ==> r[0] == text[0]
  {
    if text == [] then [] else [UpperChar(text[0])] + text[1..]
  }

  /** Capitalizing twice is capitalizing once. */
  lemma CapitalizeIdempotent(text: string)
    ensures Capitalize(Capitalize(text)) == Capitalize(text)
  {
  }

  /** The example of the doc comment. */
  lemma CapitalizeExample()
    ensures Capitalize("hello world") == "Hello world"
  {
  }

  /**
   * `truncate(text, maxLength)`. The text is kept when it fits; otherwise
   * `text.slice(0, maxLength)` followed by `...`, where `slice` counts a
   * negative end from the end of the text and clamps it at 0.
   */
  function Truncate(text: string, maxLength: int): (r: string)
    ensures |text| <= maxLength ==> r == text
    ensures 0 <= maxLength < |text| ==> r == text[..maxLength] + "..." && |r| == maxLength + 3
    ensures maxLength < 0 ==> r == text[..SliceEnd(|text|, maxLength)] + "..."
  {
    if |text| <= maxLength then text
    else text[..SliceEnd(|text|, maxLength)] + "..."
  }

  /** The end index `String.prototype.slice` uses for an `end` argument `e` on a string of length `len`. */
  function SliceEnd(len: nat, e: int): (r: nat)
    ensures r <= len
    ensures 0 <= e <= len ==> r == e
  {
    if e < 0 then (if len + e < 0 then 0 else len + e)
    else if e > len then len
    else e
  }

  /** A truncated text is a prefix of the original followed by `...`, never longer than `max(|text|, maxLength + 3)`. */
  lemma TruncateShape(text: string, maxLength: int)
    ensures Truncate(text, maxLength) == text
         || (exists p | 0 <= p <= |text| :: Truncate(text, maxLength) == text[..p] + "...")
    ensures maxLength >= 0 ==> |Truncate(text, maxLength)| <= if |text| <= maxLength then |text| else maxLength + 3
  {
    if |text| > maxLength {
      var p := SliceEnd(|text|, maxLength);
      assert Truncate(text, maxLength) == text[..p] + "...";
    }
  }

  /** With a non-negative limit, truncating twice is truncating once. */
  lemma TruncateIdempotent(text: string, maxLength: nat)
    ensures Truncate(Truncate(text, maxLength), maxLength) == Truncate(text, maxLength)
  {
    if |text| > maxLength {
      var r := text[..maxLength] + "...";
      assert r[..maxLength] == text[..maxLength];
    }
  }

  /** The example of the doc comment. */
  lemma TruncateExample()
    ensures Truncate("Hello world", 5) == "Hello..."
  {
  }
}
