/** The few Python `str` operations the server code relies on: `isspace`,
    `strip()`, `split('\n')` and `lower()`. */
module PyStr {

  /** Python's `str.isspace` on one character: the characters CPython treats
      as whitespace (which is also what `strip()` with no argument removes). */
  predicate IsSpace(c: char) {
    ('\t' <= c <= '\r') || ('\U{1C}' <= c <= '\U{1F}') || c == ' ' ||
    c == '\U{85}' || c == '\U{A0}' || c == '\U{1680}' ||
    ('\U{2000}' <= c <= '\U{200A}') || c == '\U{2028}' || c == '\U{2029}' ||
    c == '\U{202F}' || c == '\U{205F}' || c == '\U{3000}'
  }

  predicate AllSpace(s: string) {
    forall k :: 0 <= k < |s| ==> IsSpace(s[k])
  }

  /** Neither end of `s` is whitespace. */
  predicate IsStripped(s: string) {
    s == [] || (!IsSpace(s[0]) && !IsSpace(s[|s| - 1]))
  }

  /** Number of whitespace characters at the front of `s`. */
  function LeadingSpaces(s: string): (n: nat)
    ensures n <= |s|
    ensures AllSpace(s[..n])
    ensures n < |s| ==> !IsSpace(s[n])
  {
    if s == [] || !IsSpace(s[0]) then 0 else 1 + LeadingSpaces(s[1..])
  }

  /** Number of whitespace characters at the back of `s`. */
  function TrailingSpaces(s: string): (n: nat)
    ensures n <= |s|
    ensures AllSpace(s[|s| - n..])
    ensures n < |s| ==> !IsSpace(s[|s| - 1 - n])
  {
    if s == [] || !IsSpace(s[|s| - 1]) then 0 else 1 + TrailingSpaces(s[..|s| - 1])
  }

  /** `s.strip()`: `s` without its leading and trailing whitespace. */
  function Strip(s: string): (r: string)
    ensures |r| <= |s|
    ensures IsStripped(r)
    ensures r == [] <==> AllSpace(s)
  {
    var a := LeadingSpaces(s);
    var rest := s[a..];
    var b := TrailingSpaces(rest);
    assert AllSpace(s) ==> a == |s|;
    assert a < |s| ==> b < |rest|;
    rest[..|rest| - b]
  }

  /** `strip()` only removes whitespace from the two ends: `s` is some
      whitespace, then `Strip(s)`, then some whitespace. */
  lemma StripParts(s: string) returns (pre: string, post: string)
    ensures s == pre + Strip(s) + post
    ensures AllSpace(pre) && AllSpace(post)
  {
    var a := LeadingSpaces(s);
    var rest := s[a..];
    var b := TrailingSpaces(rest);
    pre, post := s[..a], rest[|rest| - b..];
    Concat3(s, a, |rest| - b);
  }

  /** Conversely, whatever whitespace surrounds a stripped string, `strip()`
      recovers exactly that string; with StripParts this pins `Strip` down. */
  lemma {:induction false} StripUnique(pre: string, m: string, post: string)
    requires AllSpace(pre) && AllSpace(post) && IsStripped(m)
    ensures Strip(pre + m + post) == m
    decreases |pre| + |post|, 1
  {
    if pre != [] {
      StripUniqueFront(pre, m, post);
    } else if post != [] {
      StripUniqueBack(pre, m, post);
    } else {
      assert pre + m + post == m;
      StripStripped(m);
    }
  }

  lemma {:induction false} StripUniqueFront(pre: string, m: string, post: string)
    requires pre != [] && AllSpace(pre) && AllSpace(post) && IsStripped(m)
    ensures Strip(pre + m + post) == m
    decreases |pre| + |post|, 0
  {
    ConsSplit(pre, m, post);
    StripSpacePrefix(pre[0], pre[1..] + m + post);
    StripUnique(pre[1..], m, post);
  }

  lemma {:induction false} StripUniqueBack(pre: string, m: string, post: string)
    requires post != [] && AllSpace(pre) && AllSpace(post) && IsStripped(m)
    ensures Strip(pre + m + post) == m
    decreases |pre| + |post|, 0
  {
    var init := post[..|post| - 1];
    SnocSplit(pre, m, post);
    StripSpaceSuffix(pre + m + init, post[|post| - 1]);
    StripUnique(pre, m, init);
  }

  /** A string with no whitespace at either end is its own strip. */
  lemma StripStripped(m: string)
    requires IsStripped(m)
    ensures Strip(m) == m
  {
    if m != [] {
      assert LeadingSpaces(m) == 0;
      assert m[0..] == m;
      assert TrailingSpaces(m) == 0;
    }
  }

  /** `strip()` is idempotent. */
  lemma StripIdempotent(s: string)
    ensures Strip(Strip(s)) == Strip(s)
  {
    StripStripped(Strip(s));
  }

  /** A whitespace character in front of `s` does not change `s.strip()`. */
  lemma StripSpacePrefix(c: char, s: string)
    requires IsSpace(c)
    ensures Strip([c] + s) == Strip(s)
  {
    var x := [c] + s;
    assert x[1..] == s;
    assert LeadingSpaces(x) == 1 + LeadingSpaces(s);
    assert x[LeadingSpaces(x)..] == s[LeadingSpaces(s)..];
  }

  /** A whitespace character after `s` does not change `s.strip()`. */
  lemma StripSpaceSuffix(s: string, c: char)
    requires IsSpace(c)
    ensures Strip(s + [c]) == Strip(s)
  {
    var a := LeadingSpaces(s);
    LeadingSpacesAppend(s, c);
    if a == |s| {
      AllSpaceSnoc(s, c);
    } else {
      SnocDrop(s, c, a);
      TrailingSpacesSnoc(s[a..], c);
    }
  }

  lemma AllSpaceSnoc(s: string, c: char)
    requires AllSpace(s) && IsSpace(c)
    ensures Strip(s + [c]) == [] && Strip(s) == []
  {
    assert AllSpace(s + [c]);
  }

  /** Once the leading whitespace is gone, an extra whitespace character at
      the back is one more trailing space to drop. */
  lemma TrailingSpacesSnoc(rest: string, c: char)
    requires IsSpace(c)
    ensures TrailingSpaces(rest + [c]) == 1 + TrailingSpaces(rest)
    ensures (rest + [c])[..|rest + [c]| - TrailingSpaces(rest + [c])] ==
            rest[..|rest| - TrailingSpaces(rest)]
  {
    SnocInit(rest, c);
  }

  lemma {:induction false} LeadingSpacesAppend(s: string, c: char)
    ensures LeadingSpaces(s) < |s| ==> LeadingSpaces(s + [c]) == LeadingSpaces(s)
  {
    if s != [] && IsSpace(s[0]) {
      assert (s + [c])[1..] == s[1..] + [c];
      LeadingSpacesAppend(s[1..], c);
    }
  }

  lemma Concat3<T>(s: seq<T>, a: nat, j: nat)
    requires a <= |s| && j <= |s| - a
    ensures s == s[..a] + s[a..][..j] + s[a..][j..]
  {
    assert s[a..] == s[a..][..j] + s[a..][j..];
  }

  lemma ConsSplit<T>(p: seq<T>, m: seq<T>, q: seq<T>)
    requires p != []
    ensures p + m + q == [p[0]] + (p[1..] + m + q)
  {
    assert p == [p[0]] + p[1..];
  }

  lemma SnocSplit<T>(p: seq<T>, m: seq<T>, q: seq<T>)
    requires q != []
    ensures p + m + q == (p + m + q[..|q| - 1]) + [q[|q| - 1]]
  {
    assert q == q[..|q| - 1] + [q[|q| - 1]];
  }

  lemma SnocDrop<T>(s: seq<T>, c: T, a: nat)
    requires a <= |s|
    ensures (s + [c])[a..] == s[a..] + [c]
  {
  }

  lemma SnocInit<T>(s: seq<T>, c: T)
    ensures (s + [c])[..|s|] == s
    ensures (s + [c])[|s|] == c
  {
  }

  /** `s.split('\n')`: the pieces between newlines; there is always at
      least one, and `""` splits into `[""]`. */
  function SplitLines(s: string): (r: seq<string>)
    ensures |r| >= 1
  {
    if s == [] then [""]
    else
      var rest := SplitLines(s[1..]);
      if s[0] == '\n' then [""] + rest else [[s[0]] + rest[0]] + rest[1..]
  }

  /** `'\n'.join(lines)`, the inverse of `SplitLines`. */
  function JoinLines(lines: seq<string>): string
    requires |lines| >= 1
  {
    if |lines| == 1 then lines[0] else lines[0] + "\n" + JoinLines(lines[1..])
  }

  predicate NoNewline(s: string) {
    forall k :: 0 <= k < |s| ==> s[k] != '\n'
  }

  /** Splitting loses nothing: the pieces hold no newline and joining them
      with newlines gives back the input. */
  lemma {:induction false} SplitJoin(s: string)
    ensures JoinLines(SplitLines(s)) == s
    ensures forall k :: 0 <= k < |SplitLines(s)| ==> NoNewline(SplitLines(s)[k])
  {
    if s != [] {
      var rest := SplitLines(s[1..]);
      SplitJoin(s[1..]);
      if s[0] == '\n' {
        assert SplitLines(s)[1..] == rest;
        assert s == "" + "\n" + s[1..];
      } else {
        var r := SplitLines(s);
        assert r[1..] == rest[1..];
        forall k | 0 <= k < |r| ensures NoNewline(r[k]) {
          if k > 0 { assert r[k] == rest[k]; }
        }
        if |rest| == 1 {
          assert r == [[s[0]] + rest[0]];
        } else {
          assert JoinLines(rest) == rest[0] + "\n" + JoinLines(rest[1..]);
          assert JoinLines(r) == ([s[0]] + rest[0]) + "\n" + JoinLines(rest[1..]);
        }
      }
    }
  }

  /** A string without a newline is a single piece. */
  lemma {:induction false} SplitSingle(s: string)
    requires NoNewline(s)
    ensures SplitLines(s) == [s]
  {
    if s != [] {
      SplitSingle(s[1..]);
      assert [s[0]] + s[1..] == s;
    }
  }

  /** Splitting at a newline splits the two sides independently. */
  lemma {:induction false} SplitAtNewline(a: string, b: string)
    ensures SplitLines(a + "\n" + b) == SplitLines(a) + SplitLines(b)
  {
    if a == [] {
      assert a + "\n" + b == "\n" + b;
      assert ("\n" + b)[1..] == b;
    } else {
      assert (a + "\n" + b)[1..] == a[1..] + "\n" + b;
      SplitAtNewline(a[1..], b);
    }
  }

  /** A character other than a newline extends the last piece. */
  lemma {:induction false} SplitAppendChar(a: string, c: char)
    requires c != '\n'
    ensures var r := SplitLines(a);
            SplitLines(a + [c]) == r[..|r| - 1] + [r[|r| - 1] + [c]]
  {
    if a == [] {
      assert a + [c] == [c];
      assert [c][1..] == [];
      assert [c] + "" == [c];
      assert SplitLines(a + [c]) == [[c]];
      assert SplitLines(a) == [""];
      var r := SplitLines(a);
      assert r[..|r| - 1] + [r[|r| - 1] + [c]] == [[c]];
    } else {
      assert (a + [c])[1..] == a[1..] + [c];
      SplitAppendChar(a[1..], c);
      var rest := SplitLines(a[1..]);
      var n := |rest|;
      if a[0] == '\n' {
        assert SplitLines(a) == [""] + rest;
      } else if n == 1 {
        assert SplitLines(a + [c]) == [[a[0]] + (rest[0] + [c])];
        assert SplitLines(a) == [[a[0]] + rest[0]];
        assert [a[0]] + (rest[0] + [c]) == ([a[0]] + rest[0]) + [c];
      } else {
        var rest' := SplitLines(a[1..] + [c]);
        assert rest'[0] == rest[0];
        assert rest'[1..] == rest[1..n - 1] + [rest[n - 1] + [c]];
        assert SplitLines(a) == [[a[0]] + rest[0]] + rest[1..];
      }
    }
  }

  /** `c.lower()` for ASCII letters; other characters are kept. */
  function LowerChar(c: char): (r: char)
    ensures 'A' <= c <= 'Z' ==> 'a' <= r <= 'z' && r as int - c as int == 32
    ensures !('A' <= c <= 'Z') ==> r == c
  {
    if 'A' <= c <= 'Z' then (c as int + 32) as char else c
  }

  /** `s.lower()`, restricted to ASCII letters. */
  function Lower(s: string): (r: string)
    ensures |r| == |s|
    ensures forall k :: 0 <= k < |s| ==> r[k] == LowerChar(s[k])
  {
    if s == [] then [] else [LowerChar(s[0])] + Lower(s[1..])
  }
}
