/**
 * The few operations on Rust's `str` that the monitor manager relies on:
 * `contains`, `replace`, `lines` and the first piece of `split(" ")`.
 * Strings are sequences of characters; no encoding is modelled.
 */
module Strings {

  /** `s` begins with `prefix`. */
  predicate StartsWith(s: string, prefix: string)
  {
    |prefix| <= |s| && s[..|prefix|] == prefix
  }

  /** `pattern` occurs in `s` starting at index `i`. */
  predicate OccursAt(s: string, pattern: string, i: nat)
  {
    i + |pattern| <= |s| && s[i..i + |pattern|] == pattern
  }

  /** `str::contains`: `pattern` occurs somewhere in `s`. */
  predicate Contains(s: string, pattern: string)
    ensures Contains(s, pattern) ==> |pattern| <= |s|
    ensures pattern == [] ==> Contains(s, pattern)
  {
    assert OccursAt(s, [], 0);
    exists i: nat | i <= |s| :: OccursAt(s, pattern, i)
  }

  /** An occurrence in the tail of `s` is an occurrence in `s`, one place further on. */
  lemma ContainsShift(s: string, pattern: string)
    requires s != []
    ensures Contains(s, pattern) <==> StartsWith(s, pattern) || Contains(s[1..], pattern)
  {
    forall i: nat | 0 < i
      ensures OccursAt(s, pattern, i) <==> OccursAt(s[1..], pattern, i - 1)
    {
      if i + |pattern| <= |s| {
        assert s[1..][i - 1..i - 1 + |pattern|] == s[i..i + |pattern|];
      }
    }
    if Contains(s[1..], pattern) {
      var j: nat :| j <= |s[1..]| && OccursAt(s[1..], pattern, j);
      assert OccursAt(s, pattern, j + 1);
    }
    if StartsWith(s, pattern) {
      assert OccursAt(s, pattern, 0);
    }
  }

  /** A pattern with a character that `s` lacks does not occur in `s`. */
  lemma MissingCharNotContained(s: string, pattern: string, j: nat)
    requires j < |pattern| && pattern[j] !in s
    ensures !Contains(s, pattern)
  {
    forall i: nat | i <= |s| ensures !OccursAt(s, pattern, i) {
      if i + |pattern| <= |s| {
        assert s[i..i + |pattern|][j] == s[i + j];
      }
    }
  }

  /**
   * `str::replace`: every non-overlapping occurrence of `from`, found from
   * left to right, is replaced by `to`.
   */
  function ReplaceAll(s: string, from: string, to: string): string
    requires from != []
    decreases |s|
  {
    if s == [] then []
    else if StartsWith(s, from) then to + ReplaceAll(s[|from|..], from, to)
    else [s[0]] + ReplaceAll(s[1..], from, to)
  }

  /** A string in which the pattern does not occur is returned unchanged. */
  lemma {:induction false} ReplaceAllWithoutMatch(s: string, from: string, to: string)
    requires from != [] && !Contains(s, from)
    ensures ReplaceAll(s, from, to) == s
    decreases |s|
  {
    if s != [] {
      ContainsShift(s, from);
      ReplaceAllWithoutMatch(s[1..], from, to);
      assert s == [s[0]] + s[1..];
    }
  }

  /** Replacing a pattern by itself changes nothing. */
  lemma {:induction false} ReplaceAllBySelf(s: string, from: string)
    requires from != []
    ensures ReplaceAll(s, from, from) == s
    decreases |s|
  {
    if s == [] {
    } else if StartsWith(s, from) {
      ReplaceAllBySelf(s[|from|..], from);
      assert s == s[..|from|] + s[|from|..];
    } else {
      ReplaceAllBySelf(s[1..], from);
      assert s == [s[0]] + s[1..];
    }
  }

  /**
   * Rust's `replace` scans left to right: the first occurrence of the pattern
   * is replaced, and the scan resumes right after it.
   */
  lemma {:induction false} ReplaceAllFirst(a: string, b: string, from: string, to: string)
    requires from != [] && !Contains(a + from[..|from| - 1], from)
    ensures ReplaceAll(a + from + b, from, to) == a + to + ReplaceAll(b, from, to)
    decreases |a|
  {
    if a == [] {
      assert a + from + b == from + b;
      ReplaceAllAtMatch(from + b, from, to);
      assert (from + b)[|from|..] == b;
    } else {
      var rest := a[1..] + from + b;
      var tail := ReplaceAll(b, from, to);
      NoMatchBefore(a, b, from);
      assert ReplaceAll(rest, from, to) == a[1..] + to + tail by {
        ReplaceAllFirst(a[1..], b, from, to);
      }
      assert ReplaceAll(a + from + b, from, to) == [a[0]] + ReplaceAll(rest, from, to) by {
        assert a + from + b == [a[0]] + rest;
        ReplaceAllPastMismatch([a[0]] + rest, from, to);
        assert ([a[0]] + rest)[1..] == rest;
      }
      assert a + to + tail == [a[0]] + (a[1..] + to + tail);
    }
  }

  /** A string that starts with the pattern gets `to` and the replaced rest. */
  lemma ReplaceAllAtMatch(s: string, from: string, to: string)
    requires from != [] && StartsWith(s, from)
    ensures ReplaceAll(s, from, to) == to + ReplaceAll(s[|from|..], from, to)
  {
  }

  /** A string that does not start with the pattern keeps its first character. */
  lemma ReplaceAllPastMismatch(s: string, from: string, to: string)
    requires from != [] && s != [] && !StartsWith(s, from)
    ensures ReplaceAll(s, from, to) == [s[0]] + ReplaceAll(s[1..], from, to)
  {
  }

  /**
   * When the pattern does not occur before the end of the occurrence placed
   * after `a`, the text does not start with it, and neither does it occur
   * before that occurrence once the first character of `a` is dropped.
   */
  lemma NoMatchBefore(a: string, b: string, from: string)
    requires a != [] && from != [] && !Contains(a + from[..|from| - 1], from)
    ensures !StartsWith(a + from + b, from)
    ensures !Contains(a[1..] + from[..|from| - 1], from)
  {
    var front := a + from[..|from| - 1];
    var s := a + from + b;
    ContainsShift(front, from);
    assert front[..|from|] == s[..|from|];
    assert front[1..] == a[1..] + from[..|from| - 1];
  }

  /** Index of the first `c` in `s`, or `|s|` when there is none. */
  function IndexOf(s: string, c: char): (i: nat)
    ensures i <= |s|
    ensures forall j :: 0 <= j < i ==> s[j] != c
    ensures i < |s| ==> s[i] == c
  {
    if s == [] then 0
    else if s[0] == c then 0
    else 1 + IndexOf(s[1..], c)
  }

  /** `split(" ").collect()[0]`: the text before the first space (all of `s` when it has none). */
  function FirstField(s: string): (r: string)
    ensures ' ' !in r
    ensures StartsWith(s, r)
    ensures |r| < |s| ==> s[|r|] == ' '
  {
    s[..IndexOf(s, ' ')]
  }

  /** Removes the `\r` of a `\r\n` line ending. */
  function TrimCarriageReturn(line: string): (r: string)
    ensures line == r + "\r" || (line == r && (r == [] || r[|r| - 1] != '\r'))
  {
    if line != [] && line[|line| - 1] == '\r' then line[..|line| - 1] else line
  }

  /**
   * `str::lines`: the text split at `\n`, a `\r` just before a `\n` dropped,
   * and no empty last line for a text that ends with a line ending.
   */
  function Lines(s: string): (ls: seq<string>)
    ensures forall k :: 0 <= k < |ls| ==> '\n' !in ls[k]
    ensures s == [] <==> ls == []
    decreases |s|
  {
    if s == [] then []
    else
      var i := IndexOf(s, '\n');
      if i == |s| then [s]
      else [TrimCarriageReturn(s[..i])] + Lines(s[i + 1..])
  }

  /** The text made of the given lines, each followed by `\n`. */
  function Terminated(lines: seq<string>): string
  {
    if lines == [] then [] else lines[0] + "\n" + Terminated(lines[1..])
  }

  /** A line as `lines` can return it: no line feed inside, no carriage return at its end. */
  predicate IsBareLine(line: string)
  {
    '\n' !in line && (line == [] || line[|line| - 1] != '\r')
  }

  /** The first line feed of `head + "\n" + rest` is the one after `head`. */
  lemma {:induction false} IndexOfAfterLine(head: string, rest: string)
    requires '\n' !in head
    ensures IndexOf(head + "\n" + rest, '\n') == |head|
    decreases |head|
  {
    if head != [] {
      assert (head + "\n" + rest)[1..] == head[1..] + "\n" + rest;
      IndexOfAfterLine(head[1..], rest);
    }
  }

  /** `lines` recovers exactly the lines of a newline-terminated text. */
  lemma {:induction false} LinesOfTerminated(lines: seq<string>)
    requires forall k :: 0 <= k < |lines| ==> IsBareLine(lines[k])
    ensures Lines(Terminated(lines)) == lines
  {
    if lines != [] {
      var head, rest := lines[0], Terminated(lines[1..]);
      var s := head + "\n" + rest;
      assert Terminated(lines) == s;
      assert IsBareLine(head);
      IndexOfAfterLine(head, rest);
      assert s[..|head|] == head;
      assert s[|head| + 1..] == rest;
      LinesOfTerminated(lines[1..]);
    }
  }
}
