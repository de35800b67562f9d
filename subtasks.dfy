/** Sub-task extraction from the text-generation service's reply
    (`generate_subtasks` in main.py). The service call itself is foreign: its
    outcome is a parameter, `None` when the call or reading its text raised. */
module Subtasks {
  import opened PyStr
  import opened Optional

  /** A returned sub-task: non-empty, no surrounding whitespace, one line. */
  predicate WellFormed(item: string) {
    item != [] && IsStripped(item) && NoNewline(item)
  }

  predicate AllWellFormed(items: seq<string>) {
    forall k :: 0 <= k < |items| ==> WellFormed(items[k])
  }

  /** The list comprehension: each line stripped, blank lines dropped,
      order kept. */
  function KeepStripped(lines: seq<string>): (items: seq<string>)
    ensures |items| <= |lines|
  {
    if lines == [] then [] else Keep(lines[0]) + KeepStripped(lines[1..])
  }

  /** What one line contributes: its stripped form, unless that is empty. */
  function Keep(line: string): (items: seq<string>)
    ensures |items| <= 1
  {
    var item := Strip(line);
    if item != [] then [item] else []
  }

  /** The sub-tasks read from a text: its lines, stripped, blanks dropped. */
  function LinesOf(text: string): (items: seq<string>)
    ensures AllWellFormed(items)
  {
    SplitJoin(text);
    KeepStrippedWellFormed(SplitLines(text));
    KeepStripped(SplitLines(text))
  }

  lemma {:induction false} KeepStrippedWellFormed(lines: seq<string>)
    requires forall k :: 0 <= k < |lines| ==> NoNewline(lines[k])
    ensures AllWellFormed(KeepStripped(lines))
  {
    if lines != [] {
      StripNoNewline(lines[0]);
      KeepStrippedWellFormed(lines[1..]);
    }
  }

  /** `generate_subtasks`: `reply` is the service's text, or `None` when an
      exception was raised, which yields the empty list. */
  function GenerateSubtasks(reply: Option<string>): (items: seq<string>)
    ensures AllWellFormed(items)
    ensures reply.None? ==> items == []
  {
    match reply
    case None => []
    case Some(text) => LinesOf(Strip(text))
  }

  lemma StripNoNewline(s: string)
    requires NoNewline(s)
    ensures NoNewline(Strip(s))
  {
    var pre, post := StripParts(s);
    assert forall k :: 0 <= k < |Strip(s)| ==> Strip(s)[k] == s[|pre| + k];
  }

  lemma {:induction false} KeepStrippedAppend(a: seq<string>, b: seq<string>)
    ensures KeepStripped(a + b) == KeepStripped(a) + KeepStripped(b)
  {
    if a == [] {
      assert a + b == b;
    } else {
      var ab := a + b;
      assert ab[0] == a[0];
      assert ab[1..] == a[1..] + b;
      KeepStrippedAppend(a[1..], b);
      Assoc(Keep(a[0]), KeepStripped(a[1..]), KeepStripped(b));
    }
  }

  /** The empty text yields no sub-task. */
  lemma LinesOfEmpty()
    ensures LinesOf("") == []
  {
    assert Strip("") == [];
  }

  /** A single line yields its stripped form, or nothing when it is blank. */
  lemma SingleLine(line: string)
    requires NoNewline(line)
    ensures LinesOf(line) == if Strip(line) == [] then [] else [Strip(line)]
  {
    SplitSingle(line);
  }

  /** Order is kept: the sub-tasks of two blocks of text separated by a
      newline are those of the first block followed by those of the second. */
  lemma LinesOfNewline(a: string, b: string)
    ensures LinesOf(a + "\n" + b) == LinesOf(a) + LinesOf(b)
  {
    SplitAtNewline(a, b);
    SplitJoin(a);
    SplitJoin(b);
    KeepStrippedAppend(SplitLines(a), SplitLines(b));
  }

  /** Whitespace, newlines included, in front of the text yields nothing. */
  lemma {:induction false} LinesOfSpacePrefix(w: string, s: string)
    requires AllSpace(w)
    ensures LinesOf(w + s) == LinesOf(s)
  {
    if w != [] {
      assert w + s == [w[0]] + (w[1..] + s);
      LinesOfSpacePrefix(w[1..], s);
      LinesOfSpaceChar(w[0], w[1..] + s);
    } else {
      assert w + s == s;
    }
  }

  lemma LinesOfSpaceChar(c: char, s: string)
    requires IsSpace(c)
    ensures LinesOf([c] + s) == LinesOf(s)
  {
    if c == '\n' {
      assert [c] + s == "" + "\n" + s;
      LinesOfNewline("", s);
      LinesOfEmpty();
    } else {
      LinesOfBlankChar(c, s);
    }
  }

  /** Whitespace other than a newline in front joins the first line, whose
      strip it does not change. */
  lemma LinesOfBlankChar(c: char, s: string)
    requires IsSpace(c) && c != '\n'
    ensures LinesOf([c] + s) == LinesOf(s)
  {
    var x := [c] + s;
    assert x[1..] == s;
    var rest := SplitLines(s);
    SplitJoin(s);
    StripSpacePrefix(c, rest[0]);
    assert SplitLines(x) == [[c] + rest[0]] + rest[1..];
    assert rest == [rest[0]] + rest[1..];
    KeepStrippedAppend([[c] + rest[0]], rest[1..]);
    KeepStrippedAppend([rest[0]], rest[1..]);
  }

  /** Whitespace, newlines included, after the text yields nothing. */
  lemma {:induction false} LinesOfSpaceSuffix(s: string, w: string)
    requires AllSpace(w)
    ensures LinesOf(s + w) == LinesOf(s)
  {
    if w != [] {
      var init := w[..|w| - 1];
      var c := w[|w| - 1];
      assert s + w == (s + init) + [c];
      LinesOfSpaceSuffix(s, init);
      LinesOfTrailingSpaceChar(s + init, c);
    } else {
      assert s + w == s;
    }
  }

  lemma LinesOfTrailingSpaceChar(s: string, c: char)
    requires IsSpace(c)
    ensures LinesOf(s + [c]) == LinesOf(s)
  {
    if c == '\n' {
      assert s + [c] == s + "\n" + "";
      LinesOfNewline(s, "");
      LinesOfEmpty();
      assert LinesOf(s) + [] == LinesOf(s);
    } else {
      LinesOfTrailingBlankChar(s, c);
    }
  }

  /** Whitespace other than a newline at the back joins the last line, whose
      strip it does not change. */
  lemma LinesOfTrailingBlankChar(s: string, c: char)
    requires IsSpace(c) && c != '\n'
    ensures LinesOf(s + [c]) == LinesOf(s)
  {
    var r := SplitLines(s);
    var init, last := r[..|r| - 1], r[|r| - 1];
    SplitAppendChar(s, c);
    StripSpaceSuffix(last, c);
    assert r == init + [last];
    SameLastLine(init, last + [c], last);
  }

  lemma SameLastLine(init: seq<string>, a: string, b: string)
    requires Strip(a) == Strip(b)
    ensures KeepStripped(init + [a]) == KeepStripped(init + [b])
  {
    KeepStrippedAppend(init, [a]);
    KeepStrippedAppend(init, [b]);
  }

  /** The `strip()` applied to the whole reply before splitting changes
      nothing: the sub-tasks are exactly the stripped non-blank lines of the
      reply as received. */
  lemma OuterStripRedundant(text: string)
    ensures GenerateSubtasks(Some(text)) == LinesOf(text)
  {
    var pre, post := StripParts(text);
    var m := Strip(text);
    Assoc(pre, m, post);
    calc {
      LinesOf(text);
      LinesOf(pre + (m + post));
      { LinesOfSpacePrefix(pre, m + post); }
      LinesOf(m + post);
      { LinesOfSpaceSuffix(m, post); }
      LinesOf(m);
    }
  }

  lemma Assoc<T>(a: seq<T>, b: seq<T>, c: seq<T>)
    ensures a + b + c == a + (b + c)
  {
  }

  /** A reply made only of whitespace and newlines yields no sub-task. */
  lemma BlankReply(text: string)
    requires AllSpace(text)
    ensures GenerateSubtasks(Some(text)) == []
  {
    LinesOfEmpty();
  }

  /** Sub-tasks of a reply follow the order of its lines: the reply's first
      line contributes its stripped form (if not blank) ahead of everything
      the remaining lines contribute. */
  lemma ReplyOrder(first: string, rest: string)
    requires NoNewline(first)
    ensures GenerateSubtasks(Some(first + "\n" + rest)) ==
            (if Strip(first) == [] then [] else [Strip(first)]) + GenerateSubtasks(Some(rest))
  {
    OuterStripRedundant(first + "\n" + rest);
    OuterStripRedundant(rest);
    LinesOfNewline(first, rest);
    SingleLine(first);
  }
}
