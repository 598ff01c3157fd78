/**
  The few Foundation string operations the deadline pipeline relies on, over
  `string` (a sequence of characters). Case mapping is ASCII only.
*/
module Text {

  // ---------------------------------------------------------------------------
  // Case mapping (`lowercased()`)
  // ---------------------------------------------------------------------------

  function LowerChar(c: char): char {
    if 'A' <= c <= 'Z' then (c as int + 32) as char else c
  }

  /** `lowercased()`, restricted to ASCII letters. */
  function Lower(s: string): (r: string)
    ensures |r| == |s|
    ensures forall i :: 0 <= i < |s| ==> r[i] == LowerChar(s[i])
  {
    if s == [] then [] else [LowerChar(s[0])] + Lower(s[1..])
  }

  predicate HasNoUpper(s: string) {
    forall i :: 0 <= i < |s| ==> !('A' <= s[i] <= 'Z')
  }

  /** Lower-casing changes nothing in a string without capitals (such as a keyword). */
  lemma LowerOfLowerCase(s: string)
    requires HasNoUpper(s)
    ensures Lower(s) == s
  {
  }

  lemma LowerIdempotent(s: string)
    ensures Lower(Lower(s)) == Lower(s)
  {
    assert HasNoUpper(Lower(s));
  }

  // ---------------------------------------------------------------------------
  // Substring search (`contains`)
  // ---------------------------------------------------------------------------

  /** `s.contains(p)`: `p` occurs somewhere in `s`. */
  predicate Contains(s: string, p: string)
    decreases |s|
  {
    p <= s || (|s| > 0 && Contains(s[1..], p))
  }

  predicate OccursAt(s: string, p: string, i: int) {
    0 <= i && i + |p| <= |s| && s[i..i + |p|] == p
  }

  /** The recursive search agrees with the positional definition of a substring. */
  lemma ContainsIffOccurs(s: string, p: string)
    ensures Contains(s, p) <==> exists i :: OccursAt(s, p, i)
  {
    if Contains(s, p) {
      var i := ContainsPosition(s, p);
    }
    forall i | OccursAt(s, p, i) ensures Contains(s, p) {
      OccursAtContains(s, p, i);
    }
  }

  lemma {:induction false} ContainsPosition(s: string, p: string) returns (i: nat)
    requires Contains(s, p)
    ensures OccursAt(s, p, i)
    decreases |s|
  {
    if p <= s {
      i := 0;
    } else {
      var j := ContainsPosition(s[1..], p);
      assert s[j + 1..j + 1 + |p|] == s[1..][j..j + |p|];
      i := j + 1;
    }
  }

  lemma {:induction false} OccursAtContains(s: string, p: string, i: nat)
    requires OccursAt(s, p, i)
    ensures Contains(s, p)
    decreases i
  {
    if i == 0 {
      assert p <= s;
    } else {
      assert s[1..][i - 1..i - 1 + |p|] == s[i..i + |p|];
      OccursAtContains(s[1..], p, i - 1);
    }
  }

  /** A pattern whose first character is absent from `s` does not occur in `s`. */
  lemma {:induction false} NotContainsFirstCharAbsent(s: string, p: string)
    requires |p| > 0 && p[0] !in s
    ensures !Contains(s, p)
    decreases |s|
  {
    if |s| > 0 {
      assert s[0] != p[0];
      NotContainsFirstCharAbsent(s[1..], p);
    }
  }

  /** A pattern longer than `s` does not occur in `s`. */
  lemma {:induction false} NotContainsLonger(s: string, p: string)
    requires |p| > |s|
    ensures !Contains(s, p)
    decreases |s|
  {
    if |s| > 0 {
      NotContainsLonger(s[1..], p);
    }
  }

  // ---------------------------------------------------------------------------
  // Splitting and joining
  // ---------------------------------------------------------------------------

  /**
    `s.components(separatedBy: sep)`: the pieces between the non-overlapping
    occurrences of `sep`, found left to right; empty pieces are kept, so the
    result always has at least one element.
  */
  function Components(s: string, sep: string): (r: seq<string>)
    requires |sep| > 0
    ensures |r| >= 1
    decreases |s|
  {
    if |s| < |sep| then [s]
    else if s[..|sep|] == sep then [[]] + Components(s[|sep|..], sep)
    else
      var rest := Components(s[1..], sep);
      [[s[0]] + rest[0]] + rest[1..]
  }

  /** `parts.joined(separator: sep)`. */
  function Join(parts: seq<string>, sep: string): string
  {
    if parts == [] then []
    else if |parts| == 1 then parts[0]
    else parts[0] + sep + Join(parts[1..], sep)
  }

  lemma JoinConsChar(c: char, p: string, ps: seq<string>, sep: string)
    ensures Join([[c] + p] + ps, sep) == [c] + Join([p] + ps, sep)
  {
    if ps == [] {
    } else {
      assert ([[c] + p] + ps)[1..] == ps;
      assert ([p] + ps)[1..] == ps;
    }
  }

  /** Joining the components with the separator gives back the input. */
  lemma {:induction false} JoinComponents(s: string, sep: string)
    requires |sep| > 0
    ensures Join(Components(s, sep), sep) == s
    decreases |s|
  {
    if |s| < |sep| {
    } else if s[..|sep|] == sep {
      JoinComponents(s[|sep|..], sep);
      JoinAtSeparator(s, sep);
    } else {
      JoinComponents(s[1..], sep);
      JoinAtOther(s, sep);
    }
  }

  /** The step of `JoinComponents` where `s` starts with the separator. */
  lemma {:induction false} JoinAtSeparator(s: string, sep: string)
    requires |sep| > 0 && |s| >= |sep| && s[..|sep|] == sep
    requires Join(Components(s[|sep|..], sep), sep) == s[|sep|..]
    ensures Join(Components(s, sep), sep) == s
  {
    var rest := Components(s[|sep|..], sep);
    var c := [[]] + rest;
    assert Components(s, sep) == c;
    assert |c| >= 2 && c[0] == [] && c[1..] == rest;
    assert Join(c, sep) == [] + sep + Join(rest, sep);
    assert s == s[..|sep|] + s[|sep|..];
  }

  /** The step of `JoinComponents` where `s` does not start with the separator. */
  lemma {:induction false} JoinAtOther(s: string, sep: string)
    requires |sep| > 0 && |s| >= |sep| && s[..|sep|] != sep
    requires Join(Components(s[1..], sep), sep) == s[1..]
    ensures Join(Components(s, sep), sep) == s
  {
    var rest := Components(s[1..], sep);
    assert Components(s, sep) == [[s[0]] + rest[0]] + rest[1..];
    JoinConsChar(s[0], rest[0], rest[1..], sep);
    assert [rest[0]] + rest[1..] == rest;
    calc {
      Join(Components(s, sep), sep);
      [s[0]] + Join(rest, sep);
      [s[0]] + s[1..];
      s;
    }
  }

  /** A string without the separator's first character is a single component. */
  lemma {:induction false} ComponentsNoSeparator(s: string, sep: string)
    requires |sep| > 0 && sep[0] !in s
    ensures Components(s, sep) == [s]
    decreases |s|
  {
    if |s| >= |sep| {
      assert s[..|sep|][0] == s[0] != sep[0];
      ComponentsNoSeparator(s[1..], sep);
      assert [s[0]] + s[1..] == s;
    }
  }

  /**
    A prefix without the separator's first character is glued onto the first
    component of the rest; the other components are those of the rest.
  */
  lemma {:induction false} ComponentsOfPrefixed(a: string, b: string, sep: string)
    requires |sep| > 0 && sep[0] !in a
    ensures var c := Components(b, sep);
      Components(a + b, sep) == [a + c[0]] + c[1..]
    decreases |a|
  {
    var c := Components(b, sep);
    if a == [] {
      assert a + b == b;
      assert a + c[0] == c[0];
      assert [c[0]] + c[1..] == c;
    } else {
      var s := a + b;
      assert s[1..] == a[1..] + b;
      ComponentsOfPrefixed(a[1..], b, sep);
      if |s| < |sep| {
        assert |b| < |sep|;
      } else {
        assert s[..|sep|][0] == a[0] != sep[0];
        assert [s[0]] + (a[1..] + c[0]) == a + c[0];
      }
    }
  }

  /** A separator right after a separator-free prefix ends the first component. */
  lemma ComponentsAtSeparator(a: string, b: string, sep: string)
    requires |sep| > 0 && sep[0] !in a
    ensures Components(a + sep + b, sep) == [a] + Components(b, sep)
  {
    var sb := sep + b;
    ComponentsOfPrefixed(a, sb, sep);
    assert a + sep + b == a + sb;
    assert sb[..|sep|] == sep;
    assert sb[|sep|..] == b;
    assert a + [] == a;
  }

  /** A string that starts with the separator has an empty first component. */
  lemma ComponentsFirstEmpty(b: string, sep: string)
    requires |sep| > 0
    ensures Components(sep + b, sep)[0] == []
  {
    ComponentsAtSeparator([], b, sep);
    assert [] + sep + b == sep + b;
  }

  /** The first component of a string starting with a non-separator character starts with it. */
  lemma ComponentsFirstStartsWith(s: string, sep: string)
    requires |sep| > 0 && |s| > 0 && s[0] != sep[0]
    ensures var c := Components(s, sep)[0]; |c| > 0 && c[0] == s[0]
  {
    ComponentsOfPrefixed([s[0]], s[1..], sep);
    assert [s[0]] + s[1..] == s;
  }

  /** With a one-character separator, no component contains that character. */
  lemma {:induction false} ComponentsAvoidSeparator(s: string, sep: string)
    requires |sep| == 1
    ensures forall k :: 0 <= k < |Components(s, sep)| ==> sep[0] !in Components(s, sep)[k]
    decreases |s|
  {
    if |s| < |sep| {
    } else if s[..|sep|] == sep {
      ComponentsAvoidSeparator(s[|sep|..], sep);
    } else {
      ComponentsAvoidSeparator(s[1..], sep);
      assert s[0] != sep[0];
    }
  }

  function NonEmpty(parts: seq<string>): (r: seq<string>)
    ensures forall k :: 0 <= k < |r| ==> r[k] != [] && r[k] in parts
  {
    if parts == [] then []
    else if parts[0] == [] then NonEmpty(parts[1..])
    else [parts[0]] + NonEmpty(parts[1..])
  }

  /**
    `s.split(separator: " ")`: the space-separated words, with empty pieces
    omitted (Swift's default `omittingEmptySubsequences: true`).
  */
  function Tokens(s: string): (r: seq<string>)
    ensures forall k :: 0 <= k < |r| ==> r[k] != [] && ' ' !in r[k]
  {
    ComponentsAvoidSeparator(s, " ");
    NonEmpty(Components(s, " "))
  }

  predicate IsWord(w: string) {
    w != [] && ' ' !in w
  }

  lemma {:induction false} ComponentsOfJoinedWords(ws: seq<string>)
    requires |ws| > 0 && forall k :: 0 <= k < |ws| ==> IsWord(ws[k])
    ensures Components(Join(ws, " "), " ") == ws
    decreases |ws|
  {
    if |ws| == 1 {
      ComponentsNoSeparator(ws[0], " ");
    } else {
      ComponentsOfJoinedWords(ws[1..]);
      ComponentsAtSeparator(ws[0], Join(ws[1..], " "), " ");
      assert [ws[0]] + ws[1..] == ws;
    }
  }

  lemma {:induction false} NonEmptyOfNonEmpty(ws: seq<string>)
    requires forall k :: 0 <= k < |ws| ==> ws[k] != []
    ensures NonEmpty(ws) == ws
    decreases |ws|
  {
    if ws != [] {
      NonEmptyOfNonEmpty(ws[1..]);
      assert [ws[0]] + ws[1..] == ws;
    }
  }

  /** Splitting words joined by single spaces gives the words back. */
  lemma TokensOfJoinedWords(ws: seq<string>)
    requires forall k :: 0 <= k < |ws| ==> IsWord(ws[k])
    ensures Tokens(Join(ws, " ")) == ws
  {
    if ws == [] {
      assert Components([], " ") == [[]];
    } else {
      ComponentsOfJoinedWords(ws);
      NonEmptyOfNonEmpty(ws);
    }
  }

  /** `s.split(separator: " ").last ?? ""`. */
  function LastToken(s: string): (r: string)
    ensures r == [] || ' ' !in r
  {
    var ts := Tokens(s);
    if ts == [] then [] else ts[|ts| - 1]
  }

  /** `String(s.split(separator: " ").dropLast().joined(separator: " "))`. */
  function DropLastToken(s: string): string {
    var ts := Tokens(s);
    if ts == [] then [] else Join(ts[..|ts| - 1], " ")
  }

  /** On words joined by single spaces, the last token is the last word and the rest is the other words. */
  lemma LastTokenOfJoinedWords(ws: seq<string>, w: string)
    requires forall k :: 0 <= k < |ws| ==> IsWord(ws[k])
    requires IsWord(w)
    ensures LastToken(Join(ws + [w], " ")) == w
    ensures DropLastToken(Join(ws + [w], " ")) == Join(ws, " ")
  {
    TokensOfJoinedWords(ws + [w]);
    assert (ws + [w])[..|ws|] == ws;
  }

  // ---------------------------------------------------------------------------
  // Replacement and trimming
  // ---------------------------------------------------------------------------

  /**
    `s.replacingOccurrences(of: pat, with: "")`: every non-overlapping
    occurrence of `pat`, found left to right, is deleted.
  */
  function RemoveAll(s: string, pat: string): (r: string)
    requires |pat| > 0
    ensures |r| <= |s|
    decreases |s|
  {
    if |s| < |pat| then s
    else if s[..|pat|] == pat then RemoveAll(s[|pat|..], pat)
    else [s[0]] + RemoveAll(s[1..], pat)
  }

  /** Without an occurrence of the pattern, nothing is removed. */
  lemma {:induction false} RemoveAllAbsent(s: string, pat: string)
    requires |pat| > 0 && !Contains(s, pat)
    ensures RemoveAll(s, pat) == s
    decreases |s|
  {
    if |s| >= |pat| {
      assert !(pat <= s);
      RemoveAllAbsent(s[1..], pat);
      assert [s[0]] + s[1..] == s;
    }
  }

  /**
    An occurrence anywhere, not only at the start, is removed: the text before
    it (which cannot start another occurrence) is kept as it is.
  */
  lemma {:induction false} RemoveAllInside(a: string, b: string, pat: string)
    requires |pat| > 0 && pat[0] !in a
    ensures RemoveAll(a + pat + b, pat) == a + RemoveAll(b, pat)
    decreases |a|
  {
    var s := a + pat + b;
    if a == [] {
      assert s == pat + b;
      assert s[..|pat|] == pat;
      assert s[|pat|..] == b;
    } else {
      assert s[..|pat|][0] == a[0] != pat[0];
      assert s[1..] == a[1..] + pat + b;
      RemoveAllInside(a[1..], b, pat);
      assert [a[0]] + (a[1..] + RemoveAll(b, pat)) == a + RemoveAll(b, pat);
    }
  }

  predicate IsBlank(c: char) {
    c == ' ' || c == '\t'
  }

  function TrimLeft(s: string): (r: string)
    ensures |r| <= |s| && r == s[|s| - |r|..]
    ensures r == [] || !IsBlank(r[0])
    ensures forall i :: 0 <= i < |s| - |r| ==> IsBlank(s[i])
  {
    if s != [] && IsBlank(s[0]) then TrimLeft(s[1..]) else s
  }

  function TrimRight(s: string): (r: string)
    ensures |r| <= |s| && r == s[..|r|]
    ensures r == [] || !IsBlank(r[|r| - 1])
    ensures forall i :: |r| <= i < |s| ==> IsBlank(s[i])
  {
    if s != [] && IsBlank(s[|s| - 1]) then TrimRight(s[..|s| - 1]) else s
  }

  /**
    `trimmingCharacters(in: .whitespaces)` for the ASCII blanks: the result is
    a slice of the input with no blank at either end, and only blanks were cut.
  */
  function Trim(s: string): (r: string)
    ensures exists i, j :: 0 <= i <= j <= |s| && r == s[i..j]
    ensures r == [] || (!IsBlank(r[0]) && !IsBlank(r[|r| - 1]))
  {
    var l := TrimLeft(s);
    var r := TrimRight(l);
    assert r == s[|s| - |l|..][..|r|] == s[|s| - |l|..|s| - |l| + |r|];
    r
  }

  // ---------------------------------------------------------------------------
  // Ordering (`<` on strings)
  // ---------------------------------------------------------------------------

  /** Lexicographic `a <= b` by character code, Swift's `<` or `==` on ASCII text. */
  predicate LexLe(a: string, b: string)
    decreases |a|
  {
    if a == [] then true
    else if b == [] then false
    else if a[0] != b[0] then a[0] < b[0]
    else LexLe(a[1..], b[1..])
  }

  lemma {:induction false} LexLeTotal(a: string, b: string)
    ensures LexLe(a, b) || LexLe(b, a)
    decreases |a|
  {
    if a != [] && b != [] && a[0] == b[0] {
      LexLeTotal(a[1..], b[1..]);
    }
  }

  lemma {:induction false} LexLeTransitive(a: string, b: string, c: string)
    requires LexLe(a, b) && LexLe(b, c)
    ensures LexLe(a, c)
    decreases |a|
  {
    if a != [] && b != [] && c != [] && a[0] == b[0] == c[0] {
      LexLeTransitive(a[1..], b[1..], c[1..]);
    }
  }

  lemma {:induction false} LexLeAntisymmetric(a: string, b: string)
    requires LexLe(a, b) && LexLe(b, a)
    ensures a == b
    decreases |a|
  {
    if a != [] && b != [] {
      LexLeAntisymmetric(a[1..], b[1..]);
      assert a == [a[0]] + a[1..];
      assert b == [b[0]] + b[1..];
    }
  }
}
