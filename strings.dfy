/** The string operations of Python's `str` that the service relies on:
    `lower`, `strip`, `in` (substring test), `endswith` and `"\n".join`.
    `Split` is not called by the service; it is the inverse of the join,
    used to show that joining the paragraphs of a DOCX file loses nothing. */
module Strings {

  /** Case mapping of one character, as `str.lower` does it for ASCII:
      'A'..'Z' become 'a'..'z', every other character is kept. */
  function LowerChar(c: char): (d: char)
  {
    if 'A' <= c <= 'Z' then (c as int + 32) as char else c
  }

  predicate IsAsciiUpper(c: char)
  {
    'A' <= c <= 'Z'
  }

  /** `s.lower()`, character by character. */
  function Lower(s: string): (r: string)
  {
    seq(|s|, i requires 0 <= i < |s| => LowerChar(s[i]))
  }

  /** Lower-casing keeps the length and leaves no upper-case ASCII letter. */
  lemma LowerHasNoUpper(s: string)
    ensures |Lower(s)| == |s|
    ensures forall i :: 0 <= i < |s| ==> !IsAsciiUpper(Lower(s)[i])
  {
  }

  /** A string without upper-case ASCII letters is its own lower-case form. */
  lemma LowerFixesLowercase(s: string)
    requires forall i :: 0 <= i < |s| ==> !IsAsciiUpper(s[i])
    ensures Lower(s) == s
  {
  }

  /** Lower-casing twice is lower-casing once. */
  lemma LowerIdempotent(s: string)
    ensures Lower(Lower(s)) == Lower(s)
  {
    LowerHasNoUpper(s);
    LowerFixesLowercase(Lower(s));
  }

  /** Lower-casing works piece by piece. */
  lemma LowerConcat(a: string, b: string)
    ensures Lower(a + b) == Lower(a) + Lower(b)
  {
  }

  /** `pat in text`: pat occurs in text as a contiguous run of characters.
      The empty pattern occurs in every text. */
  predicate Contains(text: string, pat: string)
    decreases |text|
  {
    pat <= text || (|text| > 0 && Contains(text[1..], pat))
  }

  /** pat occurs in text starting at position i. */
  predicate OccursAt(text: string, pat: string, i: nat)
  {
    i + |pat| <= |text| && text[i..i + |pat|] == pat
  }

  /** Contains holds exactly when some position of text starts a copy of pat. */
  lemma {:induction false} ContainsIff(text: string, pat: string)
    ensures Contains(text, pat) <==> exists i: nat :: OccursAt(text, pat, i)
    decreases |text|
  {
    if pat <= text {
      assert OccursAt(text, pat, 0);
    } else if |text| > 0 {
      ContainsIff(text[1..], pat);
      if Contains(text[1..], pat) {
        var j: nat :| OccursAt(text[1..], pat, j);
        assert text[1..][j..j + |pat|] == text[j + 1..j + 1 + |pat|];
        assert OccursAt(text, pat, j + 1);
      }
      if i: nat :| OccursAt(text, pat, i) {
        assert i != 0;
        assert text[1..][i - 1..i - 1 + |pat|] == text[i..i + |pat|];
        assert OccursAt(text[1..], pat, i - 1);
      }
    }
  }

  /** A copy of pat at position i makes Contains hold. */
  lemma ContainsAt(text: string, pat: string, i: nat)
    requires OccursAt(text, pat, i)
    ensures Contains(text, pat)
  {
    ContainsIff(text, pat);
  }

  /** A pattern placed between two strings occurs in the result. */
  lemma ContainsMiddle(a: string, pat: string, b: string)
    ensures Contains(a + pat + b, pat)
  {
    assert (a + pat + b)[|a|..|a| + |pat|] == pat;
    ContainsAt(a + pat + b, pat, |a|);
  }

  /** Containment is transitive: a substring of a substring is a substring. */
  lemma ContainsTransitive(a: string, b: string, c: string)
    requires Contains(a, b) && Contains(b, c)
    ensures Contains(a, c)
  {
    ContainsIff(a, b);
    ContainsIff(b, c);
    var i: nat :| OccursAt(a, b, i);
    var j: nat :| OccursAt(b, c, j);
    assert a[i + j..i + j + |c|] == c by {
      forall k | 0 <= k < |c| ensures a[i + j..i + j + |c|][k] == c[k] {
        assert a[i..i + |b|][j + k] == b[j + k];
        assert b[j..j + |c|][k] == c[k];
      }
    }
    ContainsAt(a, c, i + j);
  }

  /** A pattern holding a character the text lacks does not occur in it. */
  lemma AbsentChar(text: string, pat: string, c: char)
    requires c in pat && c !in text
    ensures !Contains(text, pat)
  {
    ContainsIff(text, pat);
    var j :| 0 <= j < |pat| && pat[j] == c;
    forall i: nat | i + |pat| <= |text| ensures !OccursAt(text, pat, i) {
      assert text[i..i + |pat|][j] == text[i + j] != c;
    }
  }

  lemma SpanHoldsSeparator(a: string, sep: char, b: string, pat: string, i: nat)
    requires OccursAt(a + [sep] + b, pat, i) && i <= |a| < i + |pat|
    ensures sep in pat
  {
    assert pat[|a| - i] == (a + [sep] + b)[i..i + |pat|][|a| - i];
  }

  /** A character outside a text's alphabet is not in the text. */
  lemma OutsideAlphabet(text: string, alphabet: set<char>, c: char)
    requires forall i :: 0 <= i < |text| ==> text[i] in alphabet
    requires c !in alphabet
    ensures c !in text
  {
  }

  /** A pattern without the separator that occurs in a + [sep] + b occurs
      in a or in b. */
  lemma ContainsAcross(a: string, sep: char, b: string, pat: string)
    requires sep !in pat
    ensures Contains(a + [sep] + b, pat) ==> Contains(a, pat) || Contains(b, pat)
  {
    var t := a + [sep] + b;
    ContainsIff(t, pat);
    forall i: nat | OccursAt(t, pat, i) ensures Contains(a, pat) || Contains(b, pat) {
      if i + |pat| <= |a| {
        assert t[i..i + |pat|] == a[i..i + |pat|];
        ContainsAt(a, pat, i);
      } else if i > |a| {
        var k := i - |a| - 1;
        var u, v := t[i..i + |pat|], b[k..k + |pat|];
        forall m | 0 <= m < |pat| ensures u[m] == v[m] {
          assert u[m] == t[i + m];
        }
        assert u == v;
        ContainsAt(b, pat, k);
      } else {
        SpanHoldsSeparator(a, sep, b, pat, i);
        assert false;
      }
    }
  }

  /** A pattern without the separator that occurs in a join occurs in one of
      the joined pieces. */
  lemma {:induction false} ContainedInPiece(parts: seq<string>, sep: char, pat: string)
    requires |parts| >= 1 && sep !in pat
    requires Contains(Join([sep], parts), pat)
    ensures exists i :: 0 <= i < |parts| && Contains(parts[i], pat)
  {
    if |parts| > 1 {
      ContainsAcross(parts[0], sep, Join([sep], parts[1..]), pat);
      if !Contains(parts[0], pat) {
        ContainedInPiece(parts[1..], sep, pat);
        var i :| 0 <= i < |parts[1..]| && Contains(parts[1..][i], pat);
        assert Contains(parts[i + 1], pat);
      }
    }
  }

  /** A pattern without the separator that occurs in none of the pieces does
      not occur in their join. */
  lemma AbsentFromPieces(parts: seq<string>, sep: char, pat: string)
    requires |parts| >= 1 && sep !in pat
    requires forall i :: 0 <= i < |parts| ==> !Contains(parts[i], pat)
    ensures !Contains(Join([sep], parts), pat)
  {
    if Contains(Join([sep], parts), pat) {
      ContainedInPiece(parts, sep, pat);
      assert false;
    }
  }

  /** `s.endswith(suffix)`. */
  predicate EndsWith(s: string, suffix: string)
  {
    |suffix| <= |s| && s[|s| - |suffix|..] == suffix
  }

  /** A name cannot end both in ".pdf" and in ".docx", so the order in which
      the two extensions are tested does not change which branch is taken. */
  lemma PdfAndDocxExclusive(name: string)
    ensures !(EndsWith(name, ".pdf") && EndsWith(name, ".docx"))
  {
    if EndsWith(name, ".pdf") {
      assert name[|name| - 4..][3] == 'f';
      assert name[|name| - 1] != 'x';
    }
  }

  /** Python's `str.isspace`: the characters `str.strip()` removes. */
  predicate IsSpace(c: char)
  {
    || '\t' <= c <= '\r'
    || '\U{1C}' <= c <= '\U{1F}'
    || c == ' '
    || c == '\U{85}'
    || c == '\U{A0}'
    || c == '\U{1680}'
    || '\U{2000}' <= c <= '\U{200A}'
    || c == '\U{2028}' || c == '\U{2029}'
    || c == '\U{202F}' || c == '\U{205F}' || c == '\U{3000}'
  }

  predicate AllSpace(s: string)
  {
    forall i :: 0 <= i < |s| ==> IsSpace(s[i])
  }

  /** The number of whitespace characters s starts with. */
  function LeadingSpaces(s: string): (n: nat)
    ensures n <= |s|
    ensures AllSpace(s[..n])
    ensures n < |s| ==> !IsSpace(s[n])
  {
    if |s| > 0 && IsSpace(s[0]) then 1 + LeadingSpaces(s[1..]) else 0
  }

  /** The number of whitespace characters s ends with. */
  function TrailingSpaces(s: string): (n: nat)
    ensures n <= |s|
    ensures AllSpace(s[|s| - n..])
    ensures n < |s| ==> !IsSpace(s[|s| - 1 - n])
  {
    if |s| > 0 && IsSpace(s[|s| - 1]) then 1 + TrailingSpaces(s[..|s| - 1]) else 0
  }

  /** A string made of whitespace, then r, then whitespace, is all
      whitespace when r is empty. */
  lemma SpaceAround(s: string, i: nat, r: string)
    requires i + |r| <= |s| && AllSpace(s[..i]) && AllSpace(s[i + |r|..])
    ensures r == [] ==> AllSpace(s)
  {
    if r == [] {
      forall k | 0 <= k < |s| ensures IsSpace(s[k]) {
        if k < i { assert s[..i][k] == s[k]; }
        else { assert s[i..][k - i] == s[k]; }
      }
    }
  }

  /** r is a piece of s with only whitespace before and after it. */
  predicate Surrounded(s: string, r: string)
  {
    exists i :: 0 <= i <= |s| - |r| && s[i..i + |r|] == r
                && AllSpace(s[..i]) && AllSpace(s[i + |r|..])
  }

  /** `s.strip()`: s with its leading and trailing whitespace removed. The
      result is a piece of s surrounded only by whitespace, it neither starts
      nor ends with whitespace, and it is empty exactly when s is all
      whitespace. */
  function Strip(s: string): (r: string)
    ensures Surrounded(s, r)
    ensures r != [] ==> !IsSpace(r[0]) && !IsSpace(r[|r| - 1])
    ensures r == [] <==> AllSpace(s)
  {
    var i := LeadingSpaces(s);
    var rest := s[i..];
    var r := rest[..|rest| - TrailingSpaces(rest)];
    StripPiece(s, i, rest, r);
    StripEdges(s, i, rest, r);
    StripEmpty(s, i, rest, r);
    r
  }

  /** The piece Strip keeps lies between the leading and the trailing
      whitespace. */
  lemma StripPiece(s: string, i: nat, rest: string, r: string)
    requires i == LeadingSpaces(s) && rest == s[i..]
    requires r == rest[..|rest| - TrailingSpaces(rest)]
    ensures i <= |s| - |r| && s[i..i + |r|] == r
    ensures AllSpace(s[..i]) && AllSpace(s[i + |r|..])
    ensures Surrounded(s, r)
  {
    assert s[i..i + |r|] == r;
    assert s[i + |r|..] == rest[|rest| - TrailingSpaces(rest)..];
  }

  /** The piece Strip keeps neither starts nor ends with whitespace. */
  lemma StripEdges(s: string, i: nat, rest: string, r: string)
    requires i == LeadingSpaces(s) && rest == s[i..]
    requires r == rest[..|rest| - TrailingSpaces(rest)]
    ensures r != [] ==> !IsSpace(r[0]) && !IsSpace(r[|r| - 1])
  {
    if r != [] {
      assert r[0] == s[i];
      var t := TrailingSpaces(rest);
      assert r[|r| - 1] == rest[|rest| - 1 - t];
    }
  }

  /** The piece Strip keeps is empty exactly when s is all whitespace. */
  lemma StripEmpty(s: string, i: nat, rest: string, r: string)
    requires i == LeadingSpaces(s) && rest == s[i..]
    requires r == rest[..|rest| - TrailingSpaces(rest)]
    ensures r == [] <==> AllSpace(s)
  {
    if r == [] {
      StripPiece(s, i, rest, r);
      SpaceAround(s, i, r);
    } else {
      assert i < |s| && !IsSpace(s[i]);
    }
  }

  /** A string that neither starts nor ends with whitespace is left as it is
      by Strip. */
  lemma StripKeeps(s: string)
    requires s == [] || (!IsSpace(s[0]) && !IsSpace(s[|s| - 1]))
    ensures Strip(s) == s
  {
    assert LeadingSpaces(s) == 0;
    assert s[0..] == s;
    assert TrailingSpaces(s) == 0;
  }

  /** Stripping an already stripped string changes nothing. */
  lemma StripIdempotent(s: string)
    ensures Strip(Strip(s)) == Strip(s)
  {
    var r := Strip(s);
    assert LeadingSpaces(r) == 0;
    assert TrailingSpaces(r[0..]) == 0;
    assert r[0..] == r;
  }

  /** `sep.join(parts)`. */
  function Join(sep: string, parts: seq<string>): (r: string)
  {
    if |parts| == 0 then ""
    else if |parts| == 1 then parts[0]
    else parts[0] + sep + Join(sep, parts[1..])
  }

  /** `s.split(sep)` for a one-character separator: the pieces between the
      separators, an empty piece for each separator at an end or next to
      another one. There is always at least one piece and no piece holds sep. */
  function Split(s: string, sep: char): (parts: seq<string>)
    ensures |parts| >= 1
    ensures forall i :: 0 <= i < |parts| ==> sep !in parts[i]
  {
    if |s| == 0 then [""]
    else
      var rest := Split(s[1..], sep);
      if s[0] == sep then [""] + rest else [[s[0]] + rest[0]] + rest[1..]
  }

  lemma {:induction false} SplitWithoutSeparator(p: string, sep: char)
    requires sep !in p
    ensures Split(p, sep) == [p]
  {
    if |p| > 0 {
      SplitWithoutSeparator(p[1..], sep);
      assert [p[0]] + p[1..] == p;
    }
  }

  lemma {:induction false} SplitAfterPiece(p: string, t: string, sep: char)
    requires sep !in p
    ensures Split(p + [sep] + t, sep) == [p] + Split(t, sep)
  {
    var s := p + [sep] + t;
    if |p| == 0 {
      assert s[1..] == t;
    } else {
      assert s[1..] == p[1..] + [sep] + t;
      SplitAfterPiece(p[1..], t, sep);
      assert [p[0]] + p[1..] == p;
    }
  }

  /** Splitting a join of separator-free pieces gives the pieces back. */
  lemma {:induction false} SplitJoin(parts: seq<string>, sep: char)
    requires |parts| >= 1
    requires forall i :: 0 <= i < |parts| ==> sep !in parts[i]
    ensures Split(Join([sep], parts), sep) == parts
  {
    if |parts| == 1 {
      SplitWithoutSeparator(parts[0], sep);
    } else {
      SplitJoin(parts[1..], sep);
      SplitAfterPiece(parts[0], Join([sep], parts[1..]), sep);
      assert [parts[0]] + parts[1..] == parts;
    }
  }

  /** Joining two non-empty lists of pieces puts one separator between
      their joins. */
  lemma {:induction false} JoinAppend(sep: string, a: seq<string>, b: seq<string>)
    requires |a| >= 1 && |b| >= 1
    ensures Join(sep, a + b) == Join(sep, a) + sep + Join(sep, b)
    decreases |a|
  {
    assert (a + b)[0] == a[0];
    assert (a + b)[1..] == a[1..] + b;
    if |a| > 1 {
      JoinAppend(sep, a[1..], b);
    }
  }

  lemma JoinConsFirst(sep: string, c: char, x: string, xs: seq<string>)
    ensures Join(sep, [[c] + x] + xs) == [c] + Join(sep, [x] + xs)
  {
    var ys := [[c] + x] + xs;
    if |xs| > 0 {
      assert ys[1..] == xs;
      assert ([x] + xs)[1..] == xs;
    }
  }

  /** Joining the pieces of a split with the separator restores the string. */
  lemma {:induction false} JoinSplit(s: string, sep: char)
    ensures Join([sep], Split(s, sep)) == s
  {
    if |s| > 0 {
      var rest := Split(s[1..], sep);
      JoinSplit(s[1..], sep);
      if s[0] == sep {
        assert ([""] + rest)[1..] == rest;
        assert [s[0]] + s[1..] == s;
      } else {
        assert [rest[0]] + rest[1..] == rest;
        JoinConsFirst([sep], s[0], rest[0], rest[1..]);
        assert [s[0]] + s[1..] == s;
      }
    }
  }
}
