/**
 * Character-level helpers shared by the search pipeline: Java's notion of a
 * blank string, ASCII case folding, case-insensitive comparison, substring
 * containment and the SQL `LIKE` pattern match the search queries use.
 */
module Text {

  /** `Character.isWhitespace` in Java: the space separators other than the
      no-break spaces, the line and paragraph separators, and the ASCII
      controls TAB, LF, VT, FF, CR and FS..US. */
  predicate IsJavaWhitespace(c: char) {
    || c == ' '
    || ('\t' <= c <= '\r')
    || ('\U{1C}' <= c <= '\U{1F}')
    || c == '\U{1680}'
    || ('\U{2000}' <= c <= '\U{2006}')
    || ('\U{2008}' <= c <= '\U{200A}')
    || c == '\U{2028}' || c == '\U{2029}'
    || c == '\U{205F}' || c == '\U{3000}'
  }

  /** `String.isBlank()`: empty, or whitespace only. */
  predicate IsBlank(s: string) {
    forall i :: 0 <= i < |s| ==> IsJavaWhitespace(s[i])
  }

  predicate IsAsciiUpper(c: char) {
    'A' <= c <= 'Z'
  }

  /** Lower-case folding of one character (ASCII letters only). */
  function LowerChar(c: char): (l: char)
    ensures IsAsciiUpper(c) ==> l as int == c as int + 32
    ensures !IsAsciiUpper(c) ==> l == c
  {
    if IsAsciiUpper(c) then (c as int + 32) as char else c
  }

  /** `toLowerCase()` on the Java side and `lower()` on the database side. */
  function Lower(s: string): (l: string)
    ensures |l| == |s|
    ensures forall i :: 0 <= i < |s| ==> l[i] == LowerChar(s[i])
  {
    seq(|s|, i requires 0 <= i < |s| => LowerChar(s[i]))
  }

  /** `a.equalsIgnoreCase(b)` restricted to ASCII case folding. */
  predicate EqualsIgnoreCase(a: string, b: string) {
    |a| == |b| && forall i :: 0 <= i < |a| ==> LowerChar(a[i]) == LowerChar(b[i])
  }

  lemma LowerIdempotent(s: string)
    ensures Lower(Lower(s)) == Lower(s)
  {
  }

  /** Folding never turns a non-blank string blank, nor the reverse. */
  lemma {:induction false} LowerKeepsBlankness(s: string)
    ensures IsBlank(Lower(s)) <==> IsBlank(s)
  {
    forall i | 0 <= i < |s|
      ensures IsJavaWhitespace(Lower(s)[i]) <==> IsJavaWhitespace(s[i])
    {
      if IsAsciiUpper(s[i]) {
        assert 'a' <= Lower(s)[i] <= 'z';
      }
    }
  }

  /** Case-insensitive equality is equality after folding. */
  lemma EqualsIgnoreCaseIsFoldedEquality(a: string, b: string)
    ensures EqualsIgnoreCase(a, b) <==> Lower(a) == Lower(b)
  {
    if Lower(a) == Lower(b) {
      assert |a| == |Lower(a)| == |Lower(b)| == |b|;
      forall i | 0 <= i < |a|
        ensures LowerChar(a[i]) == LowerChar(b[i])
      {
        assert Lower(a)[i] == Lower(b)[i];
      }
    }
  }

  predicate IsPrefix(t: string, u: string) {
    |t| <= |u| && u[..|t|] == t
  }

  /** Reference definition of substring containment: `t` occurs in `s`. */
  ghost predicate IsSubstring(t: string, s: string) {
    exists i :: 0 <= i <= |s| && IsPrefix(t, s[i..])
  }

  /** SQL `LIKE`: `%` matches any run of characters, `_` exactly one, every
      other pattern character itself. No escape character is interpreted. */
  predicate Like(s: string, p: string)
    decreases |p|, |s|
  {
    if |p| == 0 then |s| == 0
    else if p[0] == '%' then Like(s, p[1..]) || (|s| > 0 && Like(s[1..], p))
    else |s| > 0 && (p[0] == '_' || p[0] == s[0]) && Like(s[1..], p[1..])
  }

  predicate NoWildcards(t: string) {
    forall i :: 0 <= i < |t| ==> t[i] != '%' && t[i] != '_'
  }

  /** A lone `%` matches everything. */
  lemma {:induction false} LikeAnything(s: string)
    ensures Like(s, "%")
    decreases |s|
  {
    if |s| > 0 {
      LikeAnything(s[1..]);
    }
  }

  /** A wildcard-free text followed by `%` matches exactly the strings it prefixes. */
  lemma {:induction false} LikeLiteralThenAny(t: string, u: string)
    requires NoWildcards(t)
    ensures Like(u, t + "%") <==> IsPrefix(t, u)
    decreases |t|
  {
    if |t| == 0 {
      assert t + "%" == "%";
      LikeAnything(u);
    } else {
      var p := t + "%";
      assert p[0] == t[0] && p[1..] == t[1..] + "%";
      if |u| > 0 {
        LikeLiteralThenAny(t[1..], u[1..]);
        if IsPrefix(t[1..], u[1..]) && u[0] == t[0] {
          assert u[..|t|] == [u[0]] + u[1..][..|t| - 1];
        }
        if IsPrefix(t, u) {
          assert u[1..][..|t| - 1] == u[..|t|][1..];
        }
      }
    }
  }

  /** A leading `%` lets the rest of the pattern match at any suffix. */
  lemma {:induction false} LeadingAny(s: string, p: string)
    ensures Like(s, "%" + p) <==> exists i :: 0 <= i <= |s| && Like(s[i..], p)
    decreases |s|
  {
    var pp := "%" + p;
    assert pp[1..] == p;
    if |s| == 0 {
      assert s[0..] == s;
    } else {
      LeadingAny(s[1..], p);
      if Like(s, pp) {
        if Like(s, p) {
          assert s[0..] == s;
        } else {
          var i :| 0 <= i <= |s[1..]| && Like(s[1..][i..], p);
          assert s[1..][i..] == s[i + 1..];
        }
      }
      if exists i :: 0 <= i <= |s| && Like(s[i..], p) {
        var i :| 0 <= i <= |s| && Like(s[i..], p);
        if i == 0 {
          assert s[0..] == s;
        } else {
          assert s[1..][i - 1..] == s[i..];
        }
      }
    }
  }

  /** With no wildcards in `t`, the pattern `%t%` is plain substring search. */
  lemma ContainsPattern(t: string, s: string)
    requires NoWildcards(t)
    ensures Like(s, "%" + t + "%") <==> IsSubstring(t, s)
  {
    assert "%" + t + "%" == "%" + (t + "%");
    LeadingAny(s, t + "%");
    forall i | 0 <= i <= |s|
      ensures Like(s[i..], t + "%") <==> IsPrefix(t, s[i..])
    {
      LikeLiteralThenAny(t, s[i..]);
    }
  }
}
