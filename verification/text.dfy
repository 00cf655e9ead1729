/** The few `str` operations the registry relies on: code-point ordering,
    ASCII lower-casing, substring search and `strip(" ")`. */
module Text {

  /** Python's `a <= b` on `str`: lexicographic order of code points, a
      proper prefix sorting first. */
  predicate StrLe(a: string, b: string)
    decreases |a|
  {
    |a| == 0 || (|b| > 0 && (a[0] < b[0] || (a[0] == b[0] && StrLe(a[1..], b[1..]))))
  }

  /** The textbook definition of lexicographic `<=`: `a` is a prefix of `b`,
      or the first position where they differ has the smaller character in `a`. */
  ghost predicate Lexicographic(a: string, b: string)
  {
    (|a| <= |b| && a == b[..|a|])
    || exists k :: 0 <= k < |a| && k < |b| && a[..k] == b[..k] && a[k] < b[k]
  }

  lemma {:induction false} StrLeIsLexicographic(a: string, b: string)
    ensures StrLe(a, b) <==> Lexicographic(a, b)
    decreases |a|
  {
    if |a| == 0 {
      assert a == b[..0];
    } else if |b| == 0 {
      assert !Lexicographic(a, b);
    } else if a[0] < b[0] {
      assert a[..0] == b[..0];
    } else if a[0] > b[0] {
      forall k | 0 < k <= |a| && k <= |b|
        ensures a[..k] != b[..k]
      {
        assert a[..k][0] != b[..k][0];
      }
    } else {
      StrLeIsLexicographic(a[1..], b[1..]);
      if Lexicographic(a[1..], b[1..]) {
        LexicographicCons(a, b);
      }
      if Lexicographic(a, b) {
        LexicographicUncons(a, b);
      }
    }
  }

  /** A common first character keeps a lexicographic pair in order. */
  lemma LexicographicCons(a: string, b: string)
    requires |a| > 0 && |b| > 0 && a[0] == b[0] && Lexicographic(a[1..], b[1..])
    ensures Lexicographic(a, b)
  {
    var a', b' := a[1..], b[1..];
    if |a'| <= |b'| && a' == b'[..|a'|] {
      assert a == [a[0]] + a' && b[..|a|] == [b[0]] + b'[..|a'|];
    } else {
      var k :| 0 <= k < |a'| && k < |b'| && a'[..k] == b'[..k] && a'[k] < b'[k];
      assert a[..k + 1] == [a[0]] + a'[..k] && b[..k + 1] == [b[0]] + b'[..k];
      assert a[k + 1] < b[k + 1];
    }
  }

  /** Dropping a common first character keeps a lexicographic pair in order. */
  lemma LexicographicUncons(a: string, b: string)
    requires |a| > 0 && |b| > 0 && a[0] == b[0] && Lexicographic(a, b)
    ensures Lexicographic(a[1..], b[1..])
  {
    var a', b' := a[1..], b[1..];
    if |a| <= |b| && a == b[..|a|] {
      assert a' == b'[..|a'|];
    } else {
      var k :| 0 <= k < |a| && k < |b| && a[..k] == b[..k] && a[k] < b[k];
      assert k > 0;
      assert a'[..k - 1] == a[..k][1..] == b[..k][1..] == b'[..k - 1];
      assert a'[k - 1] < b'[k - 1];
    }
  }

  lemma {:induction false} StrLeTotal(a: string, b: string)
    ensures StrLe(a, b) || StrLe(b, a)
    decreases |a|
  {
    if |a| > 0 && |b| > 0 && a[0] == b[0] {
      StrLeTotal(a[1..], b[1..]);
    }
  }

  lemma {:induction false} StrLeTransitive(a: string, b: string, c: string)
    requires StrLe(a, b) && StrLe(b, c)
    ensures StrLe(a, c)
    decreases |a|
  {
    if |a| > 0 && a[0] == b[0] && b[0] == c[0] {
      StrLeTransitive(a[1..], b[1..], c[1..]);
    }
  }

  predicate IsUpper(c: char) { 'A' <= c <= 'Z' }

  function LowerChar(c: char): char
  {
    if IsUpper(c) then (c as int + 32) as char else c
  }

  /** `str.lower()`, restricted to the ASCII letters. */
  function Lower(s: string): string
  {
    if |s| == 0 then "" else [LowerChar(s[0])] + Lower(s[1..])
  }

  /** Lower-casing maps each character on its own and leaves no upper-case
      letter behind. */
  lemma {:induction false} LowerPointwise(s: string)
    ensures |Lower(s)| == |s|
    ensures forall i :: 0 <= i < |s| ==> Lower(s)[i] == LowerChar(s[i]) && !IsUpper(Lower(s)[i])
  {
    if |s| > 0 {
      LowerPointwise(s[1..]);
    }
  }

  predicate StartsWith(s: string, prefix: string)
  {
    |prefix| <= |s| && s[..|prefix|] == prefix
  }

  /** `needle` is spelled by `hay` starting at position `i`. */
  predicate OccursAt(hay: string, needle: string, i: int)
  {
    0 <= i && i + |needle| <= |hay| && hay[i..i + |needle|] == needle
  }

  /** Python's `needle in hay` (the empty needle is in every string). */
  function Contains(hay: string, needle: string): (r: bool)
    ensures r <==> exists i :: OccursAt(hay, needle, i)
    decreases |hay|
  {
    if StartsWith(hay, needle) then
      assert OccursAt(hay, needle, 0);
      true
    else if |hay| == 0 then false
    else
      var rest := Contains(hay[1..], needle);
      assert rest ==> exists i :: OccursAt(hay, needle, i) by {
        if rest {
          var i :| OccursAt(hay[1..], needle, i);
          assert hay[i + 1..i + 1 + |needle|] == hay[1..][i..i + |needle|];
          assert OccursAt(hay, needle, i + 1);
        }
      }
      assert (exists i :: OccursAt(hay, needle, i)) ==> rest by {
        if exists i :: OccursAt(hay, needle, i) {
          var i :| OccursAt(hay, needle, i);
          assert i != 0;
          assert hay[1..][i - 1..i - 1 + |needle|] == hay[i..i + |needle|];
          assert OccursAt(hay[1..], needle, i - 1);
        }
      }
      rest
  }

  predicate AllSpaces(s: string)
  {
    forall i :: 0 <= i < |s| ==> s[i] == ' '
  }

  /** `s` is `r` with nothing but spaces before position `i` and after `r`. */
  predicate PaddedAt(s: string, r: string, i: int)
  {
    0 <= i && i + |r| <= |s| && s[i..i + |r|] == r && AllSpaces(s[..i]) && AllSpaces(s[i + |r|..])
  }

  /** The number of spaces `s` starts with. */
  function LeadingSpaces(s: string): (n: nat)
    ensures n <= |s| && AllSpaces(s[..n])
    ensures n < |s| ==> s[n] != ' '
    decreases |s|
  {
    if |s| > 0 && s[0] == ' ' then
      var k := LeadingSpaces(s[1..]);
      assert s[..k + 1] == [s[0]] + s[1..][..k];
      k + 1
    else 0
  }

  /** The number of spaces `s` ends with. */
  function TrailingSpaces(s: string): (n: nat)
    ensures n <= |s| && AllSpaces(s[|s| - n..])
    ensures n < |s| ==> s[|s| - n - 1] != ' '
    decreases |s|
  {
    if |s| > 0 && s[|s| - 1] == ' ' then
      var t := s[..|s| - 1];
      var k := TrailingSpaces(t);
      assert AllSpaces(s[|s| - (k + 1)..]) by {
        forall i | |s| - (k + 1) <= i < |s|
          ensures s[i] == ' '
        {
          if i < |s| - 1 {
            assert s[i] == t[i] == t[|t| - k..][i - (|t| - k)];
          }
        }
      }
      assert k + 1 < |s| ==> s[|s| - (k + 1) - 1] == t[|t| - k - 1];
      k + 1
    else 0
  }

  /** `str.strip(" ")`: drops leading and trailing spaces, and nothing else. */
  function StripSpaces(s: string): (r: string)
    ensures exists i :: PaddedAt(s, r, i)
    ensures |r| > 0 ==> r[0] != ' ' && r[|r| - 1] != ' '
    ensures |r| == 0 <==> AllSpaces(s)
  {
    var n := LeadingSpaces(s);
    var t := s[n..];
    var m := TrailingSpaces(t);
    var r := t[..|t| - m];
    assert s[n..n + |r|] == r;
    assert s[n + |r|..] == t[|t| - m..];
    assert PaddedAt(s, r, n);
    assert n < |s| ==> t[0] != ' ';
    assert n == |s| ==> s[..n] == s;
    r
  }
}
