/**
 * The string operations of notes_detect.py: lower-casing, splitting on one
 * separator character, joining with a separator, and splitting into lines.
 */
module Text {

  /** s begins with p. */
  predicate StartsWith(s: string, p: string)
  {
    |p| <= |s| && s[..|p|] == p
  }

  /** s ends with p. */
  predicate EndsWith(s: string, p: string)
  {
    |p| <= |s| && s[|s| - |p|..] == p
  }

  predicate IsUpper(c: char)
  {
    'A' <= c <= 'Z'
  }

  /** c is the upper-case form of the ASCII letter l. */
  predicate IsUpperOf(c: char, l: char)
  {
    IsUpper(c) && l as int == c as int + 32
  }

  /** Lower-casing of one character: 'A'..'Z' become 'a'..'z', everything else stays. */
  function LowerChar(c: char): (d: char)
    ensures !IsUpper(d)
    ensures d == '.' <==> c == '.'
    ensures IsUpper(c) ==> IsUpperOf(c, d) && 'a' <= d <= 'z'
    ensures !IsUpper(c) ==> d == c
  {
    if IsUpper(c) then (c as int - 'A' as int + 'a' as int) as char else c
  }

  /** str.lower, on the ASCII letters: same length, no upper-case letter left, dots where they were. */
  function Lower(s: string): (r: string)
    ensures |r| == |s|
    ensures forall i :: 0 <= i < |r| ==> !IsUpper(r[i]) && (r[i] == '.' <==> s[i] == '.')
    ensures forall i :: 0 <= i < |r| ==> if IsUpper(s[i]) then IsUpperOf(s[i], r[i]) else r[i] == s[i]
  {
    seq(|s|, i requires 0 <= i < |s| => LowerChar(s[i]))
  }

  /** Lower-casing twice is lower-casing once. */
  lemma LowerIdempotent(s: string)
    ensures Lower(Lower(s)) == Lower(s)
  {
  }

  /** s and t are the same string up to the case of ASCII letters. */
  predicate SameIgnoringCase(s: string, t: string)
  {
    |s| == |t| &&
    forall i :: 0 <= i < |s| ==> s[i] == t[i] || IsUpperOf(s[i], t[i]) || IsUpperOf(t[i], s[i])
  }

  /** Strings that differ only in the case of their letters lower-case alike. */
  lemma LowerIgnoresCase(s: string, t: string)
    requires SameIgnoringCase(s, t)
    ensures Lower(s) == Lower(t)
  {
    forall i | 0 <= i < |s|
      ensures Lower(s)[i] == Lower(t)[i]
    {
      if IsUpperOf(s[i], t[i]) {
        assert !IsUpper(t[i]);
      } else if IsUpperOf(t[i], s[i]) {
        assert !IsUpper(s[i]);
      }
    }
  }

  /**
   * str.split with an explicit one-character separator: the maximal runs
   * between separators, so that a string with k separators has k + 1 parts.
   */
  function Split(s: string, sep: char): (parts: seq<string>)
    ensures |parts| >= 1
    ensures forall k :: 0 <= k < |parts| ==> sep !in parts[k]
    decreases |s|
  {
    if s == [] then [[]]
    else
      var rest := Split(s[1..], sep);
      if s[0] == sep then [[]] + rest else [[s[0]] + rest[0]] + rest[1..]
  }

  /** The number of characters in all the parts together. */
  function TotalLength(parts: seq<string>): nat
  {
    if parts == [] then 0 else |parts[0]| + TotalLength(parts[1..])
  }

  /** sep.join(parts): the parts with sep between consecutive ones, one separator fewer than parts. */
  function Join(parts: seq<string>, sep: string): (s: string)
    ensures |s| == TotalLength(parts) + (if parts == [] then 0 else (|parts| - 1) * |sep|)
    ensures |parts| >= 1 ==> StartsWith(s, parts[0])
  {
    if |parts| == 0 then []
    else if |parts| == 1 then parts[0]
    else parts[0] + sep + Join(parts[1..], sep)
  }

  /**
   * str.splitlines, with '\n' as the only line boundary: the lines between
   * boundaries, where a boundary at the very end does not open an empty last line.
   */
  function SplitLines(s: string): (lines: seq<string>)
    ensures forall k :: 0 <= k < |lines| ==> '\n' !in lines[k]
  {
    var parts := Split(s, '\n');
    if parts[|parts| - 1] == [] then parts[..|parts| - 1] else parts
  }

  lemma {:induction false} SplitNoSeparator(s: string, sep: char)
    requires sep !in s
    ensures Split(s, sep) == [s]
    decreases |s|
  {
    if s != [] {
      SplitNoSeparator(s[1..], sep);
      assert [s[0]] + s[1..] == s;
    }
  }

  /** A separator splits the string into the parts of what lies before it and of what lies after it. */
  lemma {:induction false} SplitAround(a: string, sep: char, b: string)
    ensures Split(a + [sep] + b, sep) == Split(a, sep) + Split(b, sep)
    decreases |a|
  {
    var s := a + [sep] + b;
    if a == [] {
      assert s[0] == sep && s[1..] == b;
    } else {
      SplitAround(a[1..], sep, b);
      assert s[0] == a[0] && s[1..] == a[1..] + [sep] + b;
    }
  }

  lemma {:induction false} TotalLengthAppend(parts: seq<string>, p: string)
    ensures TotalLength(parts + [p]) == TotalLength(parts) + |p|
    decreases |parts|
  {
    if parts != [] {
      TotalLengthAppend(parts[1..], p);
      assert (parts + [p])[1..] == parts[1..] + [p];
    }
  }

  lemma {:induction false} JoinAppend(parts: seq<string>, sep: string, p: string)
    requires |parts| >= 1
    ensures Join(parts + [p], sep) == Join(parts, sep) + sep + p
    decreases |parts|
  {
    if |parts| > 1 {
      JoinAppend(parts[1..], sep, p);
      assert (parts + [p])[1..] == parts[1..] + [p];
    }
  }

  /** Joining the parts of a split with the separator gives back the string. */
  lemma {:induction false} JoinSplit(s: string, sep: char)
    ensures Join(Split(s, sep), [sep]) == s
    decreases |s|
  {
    if s != [] {
      var rest := Split(s[1..], sep);
      JoinSplit(s[1..], sep);
      if s[0] != sep && |rest| > 1 {
        var parts := Split(s, sep);
        assert parts[1..] == rest[1..];
        assert Join(rest, [sep]) == rest[0] + [sep] + Join(rest[1..], [sep]);
      }
      assert [s[0]] + s[1..] == s;
    }
  }

  /** Splitting a join of separator-free parts gives back the parts. */
  lemma {:induction false} SplitJoin(parts: seq<string>, sep: char)
    requires |parts| >= 1
    requires forall k :: 0 <= k < |parts| ==> sep !in parts[k]
    ensures Split(Join(parts, [sep]), sep) == parts
    decreases |parts|
  {
    SplitNoSeparator(parts[0], sep);
    if |parts| > 1 {
      SplitJoin(parts[1..], sep);
      SplitAround(parts[0], sep, Join(parts[1..], [sep]));
      assert [parts[0]] + parts[1..] == parts;
    }
  }

  /** The last part of a split: free of the separator, and either all of s or what follows the last separator. */
  lemma LastPart(s: string, sep: char)
    ensures var parts := Split(s, sep);
            var last := parts[|parts| - 1];
            sep !in last && (last == s || EndsWith(s, [sep] + last))
  {
    var parts := Split(s, sep);
    JoinSplit(s, sep);
    if |parts| > 1 {
      var init := parts[..|parts| - 1];
      assert init + [parts[|parts| - 1]] == parts;
      JoinAppend(init, [sep], parts[|parts| - 1]);
    }
  }

  /** A boundary at the end of the text adds no line. */
  lemma SplitLinesTerminated(s: string)
    ensures SplitLines(s + "\n") == Split(s, '\n')
  {
    SplitAround(s, '\n', []);
    assert s + "\n" == s + ['\n'] + [];
    assert Split([], '\n') == [[]];
  }

  /** A text that does not end in a boundary keeps its last line: its lines are all the parts between boundaries. */
  lemma SplitLinesUnterminated(s: string)
    requires s != [] && s[|s| - 1] != '\n'
    ensures SplitLines(s) == Split(s, '\n')
  {
    LastPart(s, '\n');
  }

  /** Joining the lines with "\n", and restoring a final "\n" where there was one, gives back the text. */
  lemma SplitLinesJoin(s: string)
    ensures Join(SplitLines(s), "\n") + (if s != [] && s[|s| - 1] == '\n' then "\n" else "") == s
  {
    if s == [] {
      assert Split(s, '\n') == [[]];
    } else if s[|s| - 1] == '\n' {
      var p := s[..|s| - 1];
      assert p + "\n" == s;
      SplitLinesTerminated(p);
      JoinSplit(p, '\n');
    } else {
      SplitLinesUnterminated(s);
      JoinSplit(s, '\n');
    }
  }

  /** Lines joined with '\n' after each one are split back into the same lines. */
  lemma SplitLinesOfTerminatedLines(lines: seq<string>)
    requires forall k :: 0 <= k < |lines| ==> '\n' !in lines[k]
    ensures SplitLines(if lines == [] then [] else Join(lines, "\n") + "\n") == lines
  {
    if lines != [] {
      SplitLinesTerminated(Join(lines, "\n"));
      SplitJoin(lines, '\n');
    }
  }
}
